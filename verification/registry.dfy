/** The generator kinds, the descriptor table (one row per implemented
    uniform generator) and the names under which a state snapshot is loaded. */
module Registry {

  datatype Option<T> = None | Some(value: T)

  /** The uniform generator kinds, in the order of R's enumeration. */
  datatype Kind =
    | WichmannHill
    | MarsagliaMultiCarry
    | SuperDuper
    | MersenneTwister
    | KnuthTAOCP
    | UserUnif
    | KnuthTAOCP2002
    | LecuyerCMRG

  /** The normal-variate kinds; they only take part in descriptor lookup. */
  datatype NormalKind =
    | BuggyKindermanRamage
    | AhrensDieter
    | BoxMuller
    | UserNorm
    | Inversion
    | KindermanRamage

  /** One row of the generator table: which generator, its companion normal
      kind, its display name and how many state words it keeps. */
  datatype Descriptor = Descriptor(kind: Kind, normalKind: NormalKind, name: string, nSeed: nat)

  /** The table in its source order; the user-supplied row is commented out
      in the source, so `UserUnif` has no row. */
  const Table: seq<Descriptor> := [
    Descriptor(WichmannHill, BuggyKindermanRamage, "Wichmann-Hill", 3),
    Descriptor(MarsagliaMultiCarry, BuggyKindermanRamage, "Marsaglia-MultiCarry", 2),
    Descriptor(SuperDuper, BuggyKindermanRamage, "Super-Duper", 2),
    Descriptor(MersenneTwister, BuggyKindermanRamage, "Mersenne-Twister", 1 + 624),
    Descriptor(KnuthTAOCP, BuggyKindermanRamage, "Knuth-TAOCP", 1 + 100),
    Descriptor(KnuthTAOCP2002, BuggyKindermanRamage, "Knuth-TAOCP-2002", 1 + 100),
    Descriptor(LecuyerCMRG, BuggyKindermanRamage, "L'Ecuyer-CMRG", 6)
  ]

  /** First row of `rows` with the given kind and normal kind (`RNGTable.find`). */
  function FindRow(rows: seq<Descriptor>, k: Kind, nk: NormalKind): (d: Option<Descriptor>)
    ensures d.Some? ==> d.value in rows && d.value.kind == k && d.value.normalKind == nk
    ensures d.None? <==> forall i :: 0 <= i < |rows| ==> rows[i].kind != k || rows[i].normalKind != nk
  {
    if rows == [] then None
    else if rows[0].kind == k && rows[0].normalKind == nk then Some(rows[0])
    else
      assert forall i :: 1 <= i < |rows| ==> rows[i] == rows[1..][i - 1];
      FindRow(rows[1..], k, nk)
  }

  /** The descriptor of a (kind, normal kind) pair, if the table has one. */
  function Lookup(k: Kind, nk: NormalKind): Option<Descriptor>
  {
    FindRow(Table, k, nk)
  }

  lemma LookupExact(k: Kind, nk: NormalKind)
    ensures Lookup(k, nk).Some? <==> k != UserUnif && nk == BuggyKindermanRamage
    ensures Lookup(k, nk).Some? ==> Lookup(k, nk).value.nSeed == SeedLength(k)
  {
    TableRows();
    if k != UserUnif && nk == BuggyKindermanRamage {
      var i := RowIndex(k);
      assert Table[i].kind == k && Table[i].normalKind == nk;
    }
  }

  /** The row of an implemented kind. */
  lemma RowIndex(k: Kind) returns (i: int)
    requires k != UserUnif
    ensures 0 <= i < |Table| && Table[i].kind == k && Table[i].normalKind == BuggyKindermanRamage
  {
    i := match k
      case WichmannHill => 0
      case MarsagliaMultiCarry => 1
      case SuperDuper => 2
      case MersenneTwister => 3
      case KnuthTAOCP => 4
      case KnuthTAOCP2002 => 5
      case _ => 6;
  }

  /** Every row pairs an implemented kind with Buggy Kinderman-Ramage and
      keeps the kind's number of state words. */
  lemma TableRows()
    ensures forall d | d in Table ::
      d.kind != UserUnif && d.normalKind == BuggyKindermanRamage && d.nSeed == SeedLength(d.kind)
  {
  }

  /** The number of state words a kind keeps (`n_seed`); 0 for the kind without a row. */
  function SeedLength(k: Kind): nat
  {
    match k
    case WichmannHill => 3
    case MarsagliaMultiCarry => 2
    case SuperDuper => 2
    case MersenneTwister => 625
    case KnuthTAOCP => 101
    case UserUnif => 0
    case KnuthTAOCP2002 => 101
    case LecuyerCMRG => 6
  }

  // ---------------------------------------------------------------------
  // Names

  /** The enumeration name of a uniform kind. */
  function KindName(k: Kind): string
  {
    match k
    case WichmannHill => "WICHMANN_HILL"
    case MarsagliaMultiCarry => "MARSAGLIA_MULTICARRY"
    case SuperDuper => "SUPER_DUPER"
    case MersenneTwister => "MERSENNE_TWISTER"
    case KnuthTAOCP => "KNUTH_TAOCP"
    case UserUnif => "USER_UNIF"
    case KnuthTAOCP2002 => "KNUTH_TAOCP2"
    case LecuyerCMRG => "LECUYER_CMRG"
  }

  /** The enumeration name of a normal kind. */
  function NormalName(nk: NormalKind): string
  {
    match nk
    case BuggyKindermanRamage => "BUGGY_KINDERMAN_RAMAGE"
    case AhrensDieter => "AHRENS_DIETER"
    case BoxMuller => "BOX_MULLER"
    case UserNorm => "USER_NORM"
    case Inversion => "INVERSION"
    case KindermanRamage => "KINDERMAN_RAMAGE"
  }

  const UniformNames: seq<string> := [
    "WICHMANN_HILL", "MARSAGLIA_MULTICARRY", "SUPER_DUPER", "MERSENNE_TWISTER",
    "KNUTH_TAOCP", "USER_UNIF", "KNUTH_TAOCP2", "LECUYER_CMRG"
  ]

  const NormalNames: seq<string> := [
    "BUGGY_KINDERMAN_RAMAGE", "AHRENS_DIETER", "BOX_MULLER", "USER_NORM",
    "INVERSION", "KINDERMAN_RAMAGE"
  ]

  /** Exact reverse lookup of a uniform kind by name (`IRNGType[name]`). */
  function KindNamed(name: string): (k: Option<Kind>)
    ensures k.Some? ==> KindName(k.value) == name
  {
    if name == "WICHMANN_HILL" then Some(WichmannHill)
    else if name == "MARSAGLIA_MULTICARRY" then Some(MarsagliaMultiCarry)
    else if name == "SUPER_DUPER" then Some(SuperDuper)
    else if name == "MERSENNE_TWISTER" then Some(MersenneTwister)
    else if name == "KNUTH_TAOCP" then Some(KnuthTAOCP)
    else if name == "USER_UNIF" then Some(UserUnif)
    else if name == "KNUTH_TAOCP2" then Some(KnuthTAOCP2002)
    else if name == "LECUYER_CMRG" then Some(LecuyerCMRG)
    else None
  }

  /** Exact reverse lookup of a normal kind by name (`IN01Type[name]`). */
  function NormalNamed(name: string): (nk: Option<NormalKind>)
    ensures nk.Some? ==> NormalName(nk.value) == name
  {
    if name == "BUGGY_KINDERMAN_RAMAGE" then Some(BuggyKindermanRamage)
    else if name == "AHRENS_DIETER" then Some(AhrensDieter)
    else if name == "BOX_MULLER" then Some(BoxMuller)
    else if name == "USER_NORM" then Some(UserNorm)
    else if name == "INVERSION" then Some(Inversion)
    else if name == "KINDERMAN_RAMAGE" then Some(KindermanRamage)
    else None
  }

  lemma KindNameRoundTrip(k: Kind)
    ensures KindNamed(KindName(k)) == Some(k)
    ensures KindName(k) in UniformNames
  {
  }

  lemma NormalNameRoundTrip(nk: NormalKind)
    ensures NormalNamed(NormalName(nk)) == Some(nk)
    ensures NormalName(nk) in NormalNames
  {
  }

  /** Upper-casing of one character as `toLocaleUpperCase` does it on ASCII
      letters; other characters are kept. */
  function UpperChar(c: char): (u: char)
    ensures 'a' <= c <= 'z' ==> 'A' <= u <= 'Z' && u as int == c as int - 32
    ensures !('a' <= c <= 'z') ==> u == c
  {
    if 'a' <= c <= 'z' then (c as int - 32) as char else c
  }

  function UpperAscii(s: string): (u: string)
    ensures |u| == |s|
  {
    seq(|s|, i requires 0 <= i < |s| => UpperChar(s[i]))
  }

  /** `str.startsWith(prefix)`. */
  predicate StartsWith(str: string, prefix: string)
  {
    |prefix| <= |str| && str[..|prefix|] == prefix
  }

  /** The test `names.find(findPartial(target))` of the loader: some name,
      upper-cased, starts with `target`. */
  predicate SomeNameStartsWith(names: seq<string>, target: string)
  {
    exists i :: 0 <= i < |names| && StartsWith(UpperAscii(names[i]), target)
  }

  /** No lower-case ASCII letter occurs in `s`. */
  predicate NoLowerCase(s: string)
  {
    forall i :: 0 <= i < |s| ==> !('a' <= s[i] <= 'z')
  }

  lemma UpperAsciiKeepsUpperCase(s: string)
    requires NoLowerCase(s)
    ensures UpperAscii(s) == s
  {
  }

  lemma {:induction false} UpperAsciiIdempotent(s: string)
    ensures UpperAscii(UpperAscii(s)) == UpperAscii(s)
  {
    UpperAsciiKeepsUpperCase(UpperAscii(s));
  }

  lemma KindNameUpperCase(k: Kind)
    ensures NoLowerCase(KindName(k))
  {
    if k in {WichmannHill, MarsagliaMultiCarry, SuperDuper, MersenneTwister} {
      ClassicalKindNameUpperCase(k);
    } else {
      LaterKindNameUpperCase(k);
    }
  }

  lemma ClassicalKindNameUpperCase(k: Kind)
    requires k in {WichmannHill, MarsagliaMultiCarry, SuperDuper, MersenneTwister}
    ensures NoLowerCase(KindName(k))
  {
  }

  lemma LaterKindNameUpperCase(k: Kind)
    requires k in {KnuthTAOCP, UserUnif, KnuthTAOCP2002, LecuyerCMRG}
    ensures NoLowerCase(KindName(k))
  {
  }

  lemma NormalNameUpperCase(nk: NormalKind)
    ensures NoLowerCase(NormalName(nk))
  {
    if nk in {BuggyKindermanRamage, AhrensDieter, BoxMuller} {
      FirstNormalNameUpperCase(nk);
    } else {
      LastNormalNameUpperCase(nk);
    }
  }

  lemma FirstNormalNameUpperCase(nk: NormalKind)
    requires nk in {BuggyKindermanRamage, AhrensDieter, BoxMuller}
    ensures NoLowerCase(NormalName(nk))
  {
  }

  lemma LastNormalNameUpperCase(nk: NormalKind)
    requires nk in {UserNorm, Inversion, KindermanRamage}
    ensures NoLowerCase(NormalName(nk))
  {
  }

  /** An exact uniform enumeration name, upper-cased, passes the prefix test. */
  lemma {:induction false} ExactKindNamePassesPrefixTest(k: Kind)
    ensures SomeNameStartsWith(UniformNames, UpperAscii(KindName(k)))
  {
    var name := KindName(k);
    KindNameRoundTrip(k);
    var i :| 0 <= i < |UniformNames| && UniformNames[i] == name;
    KindNameUpperCase(k);
    UpperAsciiKeepsUpperCase(name);
    assert StartsWith(UpperAscii(UniformNames[i]), UpperAscii(name));
  }

  /** An exact normal enumeration name, upper-cased, passes the prefix test. */
  lemma {:induction false} ExactNormalNamePassesPrefixTest(nk: NormalKind)
    ensures SomeNameStartsWith(NormalNames, UpperAscii(NormalName(nk)))
  {
    var name := NormalName(nk);
    NormalNameRoundTrip(nk);
    var i :| 0 <= i < |NormalNames| && NormalNames[i] == name;
    NormalNameUpperCase(nk);
    UpperAsciiKeepsUpperCase(name);
    assert StartsWith(UpperAscii(NormalNames[i]), UpperAscii(name));
  }
}
