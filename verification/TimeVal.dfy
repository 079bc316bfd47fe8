/** Times packed into one signed 64-bit word: seconds in the high half, nanoseconds in the low. */
module TimeVal {
  const TIMEVAL_MAX: int := 0x7FFF_FFFF_0000_0000

  /** Signed values of 64 and of 32 bits. */
  type Packed = t: int | -0x8000_0000_0000_0000 <= t < 0x8000_0000_0000_0000
  type Half = h: int | -0x8000_0000 <= h < 0x8000_0000

  function Wrap64(x: int): Packed { (x + 0x8000_0000_0000_0000) % 0x1_0000_0000_0000_0000 - 0x8000_0000_0000_0000 }

  function Wrap32(x: int): Half { (x + 0x8000_0000) % 0x1_0000_0000 - 0x8000_0000 }

  // ----- the two halves of the union

  function Sec(t: Packed): Half { t / 0x1_0000_0000 }

  function Nsec(t: Packed): Half { Wrap32(t % 0x1_0000_0000) }

  /** Writing both halves. */
  function Pack(sec: Half, nsec: Half): (t: Packed)
    ensures Sec(t) == sec && Nsec(t) == nsec
  {
    var low := if nsec < 0 then nsec + 0x1_0000_0000 else nsec;
    sec * 0x1_0000_0000 + low
  }

  predicate Normal(t: Packed) { 0 <= Nsec(t) < 1_000_000_000 }

  /** Nanoseconds. */
  function Time(t: Packed): int { Sec(t) * 1_000_000_000 + Nsec(t) }

  // ----- the operations of the source

  function TimevalAdd(a: Packed, b: Packed): Packed {
    var sum := Wrap64(a + b);
    if Nsec(sum) > 999_999_999 then Pack(Wrap32(Sec(sum) + 1), Nsec(sum) - 1_000_000_000) else sum
  }

  function TimevalSub(a: Packed, b: Packed): Packed {
    var diff := Wrap64(a - b);
    if Nsec(diff) < 0 then Pack(Sec(diff), Nsec(diff) + 1_000_000_000) else diff
  }

  predicate TimevalAfter(a: Packed, b: Packed) {
    var diff := TimevalSub(a, b);
    Sec(diff) > 0 || (Sec(diff) == 0 && Nsec(diff) > 1000)
  }

  // ----- what they mean

  lemma Unpack(t: Packed)
    requires Normal(t)
    ensures t == Sec(t) * 0x1_0000_0000 + Nsec(t)
  {
  }

  lemma HalvesOf(t: Packed, s: int, n: int)
    requires t == s * 0x1_0000_0000 + n && -0x8000_0000 <= s < 0x8000_0000 && 0 <= n < 0x1_0000_0000
    ensures Sec(t) == s && Nsec(t) == if n < 0x8000_0000 then n else n - 0x1_0000_0000
  {
  }

  lemma WrapSum(s: int, n: int)
    requires 0 <= n < 0x1_0000_0000
    ensures Wrap64(s * 0x1_0000_0000 + n) == Wrap32(s) * 0x1_0000_0000 + n
  {
  }

  /** The halves of the sum before the correction: nothing is carried out of the low half. */
  lemma SumHalves(a: Packed, b: Packed)
    requires Normal(a) && Normal(b)
    ensures Sec(Wrap64(a + b)) == Wrap32(Sec(a) + Sec(b)) && Nsec(Wrap64(a + b)) == Nsec(a) + Nsec(b)
  {
    Unpack(a);
    Unpack(b);
    WrapSum(Sec(a) + Sec(b), Nsec(a) + Nsec(b));
    HalvesOf(Wrap64(a + b), Wrap32(Sec(a) + Sec(b)), Nsec(a) + Nsec(b));
  }

  /** The halves of the difference before the correction: a negative low half has borrowed one. */
  lemma DiffHalves(a: Packed, b: Packed)
    requires Normal(a) && Normal(b)
    ensures var n := Nsec(a) - Nsec(b);
      Nsec(Wrap64(a - b)) == n && Sec(Wrap64(a - b)) == Wrap32(Sec(a) - Sec(b) - if n < 0 then 1 else 0)
  {
    Unpack(a);
    Unpack(b);
    var s, n := Sec(a) - Sec(b), Nsec(a) - Nsec(b);
    if n < 0 {
      WrapSum(s - 1, n + 0x1_0000_0000);
      HalvesOf(Wrap64(a - b), Wrap32(s - 1), n + 0x1_0000_0000);
    } else {
      WrapSum(s, n);
      HalvesOf(Wrap64(a - b), Wrap32(s), n);
    }
  }

  predicate SecFits(total: int) { -0x8000_0000 <= total / 1_000_000_000 < 0x8000_0000 }

  lemma WrapTwice(s: int)
    ensures Wrap32(Wrap32(s) + 1) == Wrap32(s + 1)
  {
  }

  /** The halves after the correction. */
  lemma AddParts(a: Packed, b: Packed)
    requires Normal(a) && Normal(b)
    ensures var n := Nsec(a) + Nsec(b);
      var carry := if n > 999_999_999 then 1 else 0;
      Sec(TimevalAdd(a, b)) == Wrap32(Sec(a) + Sec(b) + carry) && Nsec(TimevalAdd(a, b)) == n - carry * 1_000_000_000
  {
    SumHalves(a, b);
    WrapTwice(Sec(a) + Sec(b));
  }

  lemma WrapExactIff(s: int, n: int, total: int)
    requires 0 <= n < 1_000_000_000 && total == s * 1_000_000_000 + n
    ensures Wrap32(s) * 1_000_000_000 + n == total <==> SecFits(total)
  {
    SecOf(s, n);
  }

  /** Addition is normal, and exact precisely when the seconds of the sum fit. */
  lemma AddExactIff(a: Packed, b: Packed)
    requires Normal(a) && Normal(b)
    ensures Normal(TimevalAdd(a, b))
    ensures Time(TimevalAdd(a, b)) == Time(a) + Time(b) <==> SecFits(Time(a) + Time(b))
  {
    AddParts(a, b);
    var n := Nsec(a) + Nsec(b);
    var carry := if n > 999_999_999 then 1 else 0;
    WrapExactIff(Sec(a) + Sec(b) + carry, n - carry * 1_000_000_000, Time(a) + Time(b));
  }

  /** Subtraction likewise. */
  lemma SubExactIff(a: Packed, b: Packed)
    requires Normal(a) && Normal(b)
    ensures Normal(TimevalSub(a, b))
    ensures Time(TimevalSub(a, b)) == Time(a) - Time(b) <==> SecFits(Time(a) - Time(b))
  {
    DiffHalves(a, b);
    var n := Nsec(a) - Nsec(b);
    var borrow := if n < 0 then 1 else 0;
    WrapExactIff(Sec(a) - Sec(b) - borrow, n + borrow * 1_000_000_000, Time(a) - Time(b));
  }

  lemma SecOf(s: int, n: int)
    requires -1_000_000_000 < n < 2_000_000_000
    ensures (s * 1_000_000_000 + n) / 1_000_000_000 == s + (if n < 0 then -1 else if n < 1_000_000_000 then 0 else 1)
  {
  }

  /** One time is after another when it is later by more than 1000 ns. */
  lemma AfterIff(a: Packed, b: Packed)
    requires Normal(a) && Normal(b) && SecFits(Time(a) - Time(b))
    ensures TimevalAfter(a, b) <==> Time(a) - Time(b) > 1000
  {
    SubExactIff(a, b);
  }

  /** The order of the packed words is the order of the times. */
  lemma PackedOrder(a: Packed, b: Packed)
    requires Normal(a) && Normal(b)
    ensures a < b <==> Time(a) < Time(b)
    ensures a == b <==> Time(a) == Time(b)
  {
    Unpack(a);
    Unpack(b);
    Lexicographic(Sec(a), Nsec(a), Sec(b), Nsec(b));
  }

  lemma Lexicographic(s: int, n: int, s': int, n': int)
    requires 0 <= n < 1_000_000_000 && 0 <= n' < 1_000_000_000
    ensures s * 1_000_000_000 + n < s' * 1_000_000_000 + n' <==> s < s' || (s == s' && n < n')
    ensures s * 0x1_0000_0000 + n < s' * 0x1_0000_0000 + n' <==> s < s' || (s == s' && n < n')
  {
  }

  /** Subtraction undoes addition. */
  lemma AddSub(a: Packed, b: Packed)
    requires Normal(a) && Normal(b) && SecFits(Time(a) + Time(b))
    ensures TimevalSub(TimevalAdd(a, b), b) == a
  {
    AddExactIff(a, b);
    SubExactIff(TimevalAdd(a, b), b);
    TimeFits(a);
    PackedOrder(TimevalSub(TimevalAdd(a, b), b), a);
  }

  lemma TimeFits(a: Packed)
    requires Normal(a)
    ensures SecFits(Time(a)) && Time(a) / 1_000_000_000 == Sec(a)
  {
    SecOf(Sec(a), Nsec(a));
  }
}
