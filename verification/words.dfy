/** Unsigned 32-bit words, as the generator states keep them in Uint32Array
    storage, and the JavaScript integer conversions the generators apply to them. */
module Words {

  const TWO32: int := 0x1_0000_0000
  const TWO31: int := 0x8000_0000

  /** One element of a Uint32Array. */
  newtype uint32 = x: int | 0 <= x < 0x1_0000_0000

  /** The word a Uint32Array element holds after a JavaScript integer `v` is
      stored into it (the ToUint32 conversion). */
  function ToUint32(v: int): (w: uint32)
    ensures (w as int - v) % TWO32 == 0
    ensures 0 <= v < TWO32 ==> w as int == v
  {
    (v % TWO32) as uint32
  }

  /** The signed 32-bit integer a word becomes when it is an operand of a
      JavaScript bitwise operator (the ToInt32 conversion). */
  function ToInt32(w: uint32): (v: int)
    ensures -TWO31 <= v < TWO31
    ensures (v - w as int) % TWO32 == 0
    ensures v < 0 <==> w as int >= TWO31
  {
    if w as int < TWO31 then w as int else w as int - TWO32
  }

  lemma ToUint32OfToInt32(w: uint32)
    ensures ToUint32(ToInt32(w)) == w
  {
  }

  /** Bitwise exclusive or of two words. */
  function Xor(a: uint32, b: uint32): uint32
  {
    ((a as bv32) ^ (b as bv32)) as uint32
  }

  /** The low bit of a word, as `x & 1` computes it. */
  function LowBit(x: uint32): (b: uint32)
    ensures b as int == x as int % 2
  {
    ((x as bv32) & 1) as uint32
  }

  /** Every word of `s` is below `bound`. */
  predicate AllBelow(s: seq<uint32>, bound: int)
  {
    forall i :: 0 <= i < |s| ==> s[i] as int < bound
  }

  /** The search `s.find(v => !!v)` of the source: true when it meets a
      nonzero word, scanning from the front. */
  function HasNonZero(s: seq<uint32>): (found: bool)
    ensures found <==> exists i :: 0 <= i < |s| && s[i] != 0
  {
    if s == [] then false
    else if s[0] != 0 then true
    else
      assert forall i :: 1 <= i < |s| ==> s[i] == s[1..][i - 1];
      HasNonZero(s[1..])
  }

  /** Scanning one more word: the slice s[lo..j+1] has a nonzero word when
      s[lo..j] has one or s[j] is nonzero. */
  lemma HasNonZeroExtend(s: seq<uint32>, lo: nat, j: nat)
    requires lo <= j < |s|
    ensures HasNonZero(s[lo..j + 1]) == (HasNonZero(s[lo..j]) || s[j] != 0)
  {
    assert s[lo..j + 1] == s[lo..j] + [s[j]];
    if s[j] != 0 {
      assert s[lo..j + 1][j - lo] == s[j];
    }
    if HasNonZero(s[lo..j]) {
      var i :| 0 <= i < j - lo && s[lo..j][i] != 0;
      assert s[lo..j + 1][i] != 0;
    }
  }

  /** Scanning one more word: every word of s[lo..j+1] is below the bound
      when those of s[lo..j] are and s[j] is. */
  lemma AllBelowExtend(s: seq<uint32>, lo: nat, j: nat, bound: int)
    requires lo <= j < |s|
    ensures AllBelow(s[lo..j + 1], bound) == (AllBelow(s[lo..j], bound) && (s[j] as int) < bound)
  {
    var t, t' := s[lo..j], s[lo..j + 1];
    assert t'[j - lo] == s[j];
    if AllBelow(t, bound) && (s[j] as int) < bound {
      forall i | 0 <= i < |t'|
        ensures t'[i] as int < bound
      {
        if i < |t| {
          assert t'[i] == t[i];
        }
      }
    }
    if AllBelow(t', bound) {
      forall i | 0 <= i < |t|
        ensures t[i] as int < bound
      {
        assert t[i] == t'[i];
      }
    }
  }
}
