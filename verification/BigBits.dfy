/** Bits of numbers: TEE_BigIntGetBit and MaxBitPos. */
module BigBits {
  import opened Products
  import opened BigNat

  /** The position of the highest one bit, 0 for 0 (as the source has it). */
  function MaxBit(v: nat): nat { if v < 2 then 0 else 1 + MaxBit(v / 2) }

  lemma {:induction false} MaxBitBounds(v: nat)
    requires v > 0
    ensures Pow2(MaxBit(v)) <= v < Pow2(MaxBit(v) + 1)
  {
    if v >= 2 { MaxBitBounds(v / 2); }
  }

  lemma MaxBitUnique(v: nat, m: nat)
    requires Pow2(m) <= v < Pow2(m + 1)
    ensures MaxBit(v) == m
  {
    MaxBitBounds(v);
    if MaxBit(v) < m { Pow2Monotone(MaxBit(v) + 1, m); }
    if m < MaxBit(v) { Pow2Monotone(m + 1, MaxBit(v)); }
  }

  /** The bit the source reads is the bit of the value. */
  lemma BitOfWord(s: seq<Word>, k: nat)
    requires k < 32 * |s|
    ensures Bit(Val(s), k) == Bit(s[|s| - 1 - k / 32], k % 32)
  {
    var j, b := k / 32, k % 32;
    WordOf(s, |s| - 1 - j);
    LowBase(Shr(Val(s), 32 * j));
    BitOfLow(Shr(Val(s), 32 * j), b, 32);
    ShrShr(Val(s), 32 * j, b);
  }

  method GetBit(src: array<Word>, bitIndex: nat) returns (r: nat)
    requires bitIndex < 32 * src.Length
    ensures r == Bit(Val(src[..]), bitIndex)
  {
    var mod, bit := bitIndex / 32, bitIndex % 32;
    mod := (src.Length - 1) - mod;
    var value := src[mod];
    BitOfWord(src[..], bitIndex);
    r := if Bit(value, bit) != 0 then 1 else 0;
  }

  lemma NoHighBit(v: nat, j: nat)
    requires v < Pow2(j + 1)
    ensures Bit(v, j) == 1 <==> v >= Pow2(j)
  {
    ShlOneZero(j);
    if v >= Pow2(j) { ShrLowUnique(v, j, 1, v - Pow2(j)); } else { ShrLowUnique(v, j, 0, v); }
  }

  /** A row of words that starts with a word whose highest bit is `j`. */
  lemma LeadingWord(s: seq<Word>, j: nat)
    requires s != [] && j < 32 && Pow2(j) <= s[0] < Pow2(j + 1)
    ensures MaxBit(Val(s)) == 32 * (|s| - 1) + j
  {
    var k := |s| - 1;
    ValBound(s[1..]);
    ShlPlusFits(s[0], 32 * k, Val(s[1..]), j + 1);
    ShlAtLeast(s[0], 32 * k, j);
    MaxBitUnique(Val(s), 32 * k + j);
  }

  lemma {:induction false} LeadingZeros(s: seq<Word>, i: nat)
    requires i <= |s| && forall k :: 0 <= k < i ==> s[k] == 0
    ensures Val(s) == Val(s[i..])
  {
    if i > 0 {
      LeadingZeros(s[1..], i - 1);
      ShlZero(0, 32 * (|s| - 1));
      assert s[1..][i - 1..] == s[i..];
    } else {
      assert s[0..] == s;
    }
  }

  method MaxBitPos(src: array<Word>) returns (index: nat)
    ensures index == MaxBit(Val(src[..]))
  {
    index := 0;
    var found := false;
    var i := 0;
    while i < src.Length && !found
      invariant 0 <= i <= src.Length
      invariant found ==> index == MaxBit(Val(src[..]))
      invariant !found ==> index == 0 && forall k :: 0 <= k < i ==> src[k] == 0
    {
      var val := src[i];
      Pow2_32();
      var j := 31;
      while j >= 0 && !found
        invariant -1 <= j <= 31
        invariant found ==> index == MaxBit(Val(src[..]))
        invariant !found ==> index == 0 && val < Pow2(j + 1)
      {
        NoHighBit(val, j);
        if Bit(val, j) == 1 {
          index := ((src.Length - i - 1) * 4) * 8 + j;
          found := true;
          LeadingZeros(src[..], i);
          LeadingWord(src[i..], j);
          assert src[..][i..] == src[i..];
        }
        j := j - 1;
      }
      i := i + 1;
    }
    if !found { ValZero(src[..]); }
  }
}
