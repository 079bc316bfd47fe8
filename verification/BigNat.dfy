/** Numbers as rows of 32-bit words, most significant word first, and their bits. */
module BigNat {
  import opened Products

  const ONES: nat := 0xFFFF_FFFF

  type Word = w: nat | w < 0x1_0000_0000

  // ----- powers and shifts, by doubling and halving

  function Pow2(k: nat): (r: nat)
    ensures r > 0
  {
    if k == 0 then 1 else 2 * Pow2(k - 1)
  }

  /** v * 2^k */
  function Shl(v: nat, k: nat): nat { if k == 0 then v else 2 * Shl(v, k - 1) }

  /** v / 2^k */
  function Shr(v: nat, k: nat): nat { if k == 0 then v else Shr(v / 2, k - 1) }

  /** v mod 2^k */
  function Low(v: nat, k: nat): nat { if k == 0 then 0 else v % 2 + 2 * Low(v / 2, k - 1) }

  function Bit(v: nat, k: nat): nat { Shr(v, k) % 2 }

  /** The modulus of rows of `k` words. */
  function Pw(k: nat): (r: nat)
    ensures r > 0
  {
    Pow2(32 * k)
  }

  /** v moved up by `k` words. */
  function Scale(v: nat, k: nat): nat { Shl(v, 32 * k) }

  function Val(s: seq<Word>): nat {
    if |s| == 0 then 0 else Scale(s[0], |s| - 1) + Val(s[1..])
  }

  // ----- powers of two

  lemma Pow2_32()
    ensures Pow2(32) == 0x1_0000_0000
  {
    assert Pow2(8) == 256;
    assert Pow2(16) == 65536;
    assert Pow2(24) == 0x100_0000;
  }

  lemma {:induction false} Pow2Monotone(a: nat, b: nat)
    requires a <= b
    ensures Pow2(a) <= Pow2(b) && (a < b ==> 2 * Pow2(a) <= Pow2(b))
  {
    if a < b { Pow2Monotone(a, b - 1); }
  }

  lemma Pow2Order(a: nat, b: nat)
    requires Pow2(a) < Pow2(b)
    ensures a < b
  {
    if b <= a { Pow2Monotone(b, a); }
  }

  // ----- shifting up

  lemma {:induction false} ShlAdd(a: nat, b: nat, k: nat)
    ensures Shl(a + b, k) == Shl(a, k) + Shl(b, k)
  {
    if k > 0 { ShlAdd(a, b, k - 1); }
  }

  lemma {:induction false} ShlShl(v: nat, a: nat, b: nat)
    ensures Shl(Shl(v, a), b) == Shl(v, a + b)
  {
    if b > 0 { ShlShl(v, a, b - 1); }
  }

  lemma ShlSwap(v: nat, a: nat, b: nat)
    ensures Shl(Shl(v, a), b) == Shl(Shl(v, b), a)
  {
    ShlShl(v, a, b);
    ShlShl(v, b, a);
  }

  lemma {:induction false} ShlOneZero(k: nat)
    ensures Shl(1, k) == Pow2(k) && Shl(0, k) == 0
  {
    if k > 0 { ShlOneZero(k - 1); }
  }

  lemma {:induction false} ShlPow2(v: nat, k: nat)
    ensures Shl(v, k) == v * Pow2(k)
  {
    if k > 0 {
      ShlPow2(v, k - 1);
      assert v * Pow2(k) == 2 * (v * Pow2(k - 1));
    }
  }

  lemma {:induction false} ShlMonotone(a: nat, b: nat, k: nat)
    requires a <= b
    ensures Shl(a, k) <= Shl(b, k)
  {
    if k > 0 { ShlMonotone(a, b, k - 1); }
  }

  lemma {:induction false} ShlZero(v: nat, x: nat)
    ensures Shl(v, x) == 0 <==> v == 0
  {
    if x > 0 { ShlZero(v, x - 1); }
  }

  lemma {:induction false} ShlAtLeast(v: nat, b: nat, j: nat)
    requires v >= Pow2(j)
    ensures Shl(v, b) >= Pow2(b + j)
  {
    if b > 0 { ShlAtLeast(v, b - 1, j); }
  }

  /** Bits put below a shifted number fit where its own bits were. */
  lemma {:induction false} ShlPlusFits(v: nat, b: nat, put: nat, c: nat)
    requires v < Pow2(c) && put < Pow2(b)
    ensures Shl(v, b) + put < Pow2(b + c)
  {
    if b > 0 { ShlPlusFits(v, b - 1, put / 2, c); }
  }

  lemma Shl32(v: nat)
    ensures Shl(v, 32) == 0x1_0000_0000 * v
  {
    ShlPow2(v, 32);
    Pow2_32();
  }

  // ----- shifting down

  lemma {:induction false} ShrFits(v: nat, c: nat, b: nat)
    requires v < Pow2(c + b)
    ensures Shr(v, c) < Pow2(b)
  {
    if c > 0 { ShrFits(v / 2, c - 1, b); }
  }

  lemma {:induction false} ShrLowUnique(v: nat, k: nat, q: nat, r: nat)
    requires v == Shl(q, k) + r && r < Pow2(k)
    ensures Shr(v, k) == q && Low(v, k) == r
  {
    if k > 0 { ShrLowUnique(v / 2, k - 1, q, r / 2); }
  }

  lemma {:induction false} ShrLow(v: nat, k: nat)
    ensures v == Shl(Shr(v, k), k) + Low(v, k) && Low(v, k) < Pow2(k)
  {
    if k > 0 { ShrLow(v / 2, k - 1); }
  }

  lemma {:induction false} ShrShr(v: nat, a: nat, b: nat)
    ensures Shr(Shr(v, a), b) == Shr(v, a + b)
  {
    if a > 0 { ShrShr(v / 2, a - 1, b); }
  }

  /** Shifting up and then down by more. */
  lemma {:induction false} ShrShl(v: nat, a: nat, b: nat)
    ensures Shr(Shl(v, a), a + b) == Shr(v, b)
    ensures Low(Shl(v, a), a + b) == Shl(Low(v, b), a)
  {
    if a > 0 { ShrShl(v, a - 1, b); }
  }

  lemma {:induction false} ShlLow(v: nat, a: nat, b: nat)
    requires b <= a
    ensures Low(Shl(v, a), b) == 0
  {
    if b > 0 { ShlLow(v, a - 1, b - 1); }
  }

  /** The low `h` bits of a number hold its bit `k`. */
  lemma {:induction false} BitOfLow(v: nat, k: nat, h: nat)
    requires k < h
    ensures Bit(Low(v, h), k) == Bit(v, k)
  {
    if k > 0 { BitOfLow(v / 2, k - 1, h - 1); }
  }

  lemma {:induction false} LowStep(v: nat, k: nat)
    ensures Low(v, k + 1) == Low(v, k) + Shl(Bit(v, k), k)
  {
    if k > 0 { LowStep(v / 2, k - 1); }
  }

  lemma LowBase(v: nat)
    ensures Low(v, 32) == v % 0x1_0000_0000
  {
    Pow2_32();
    Shl32(v / 0x1_0000_0000);
    ShrLowUnique(v, 32, v / 0x1_0000_0000, v % 0x1_0000_0000);
  }

  // ----- moving by words

  lemma ScaleBase(v: nat, k: nat)
    ensures Scale(0x1_0000_0000 * v, k) == Scale(v, k + 1)
  {
    Shl32(v);
    ShlShl(v, 32, 32 * k);
  }

  lemma ScaleOne(k: nat)
    ensures Scale(1, k) == Pw(k) && Scale(0, k) == 0
  {
    ShlOneZero(32 * k);
  }

  lemma PwStep(k: nat)
    ensures Pw(k + 1) == 0x1_0000_0000 * Pw(k)
  {
    ScaleOne(k);
    ScaleOne(k + 1);
    ShlShl(1, 32 * k, 32);
    Shl32(Scale(1, k));
  }

  /** Adding a multiple of the width changes nothing modulo the width. */
  lemma ModScale(v: int, w: int, top: nat, k: nat, total: int)
    requires total == v + w + Scale(top, k)
    ensures (v + w) % Pw(k) == total % Pw(k)
  {
    ShlPow2(top, 32 * k);
    ModAddMultiple(v + w, Pw(k), top);
  }

  // ----- values of rows of words

  lemma {:induction false} ValBound(s: seq<Word>)
    ensures Val(s) < Pw(|s|)
  {
    if |s| > 0 {
      ValBound(s[1..]);
      Pow2_32();
      ShlPlusFits(s[0], 32 * (|s| - 1), Val(s[1..]), 32);
    }
  }

  lemma {:induction false} ValConcat(s: seq<Word>, t: seq<Word>)
    ensures Val(s + t) == Scale(Val(s), |t|) + Val(t)
  {
    if |s| == 0 {
      assert s + t == t;
      ScaleOne(|t|);
    } else {
      assert (s + t)[1..] == s[1..] + t;
      ValConcat(s[1..], t);
      ShlShl(s[0], 32 * (|s| - 1), 32 * |t|);
      ShlAdd(Scale(s[0], |s| - 1), Val(s[1..]), 32 * |t|);
    }
  }

  lemma {:induction false} ValZero(s: seq<Word>)
    ensures Val(s) == 0 <==> forall i :: 0 <= i < |s| ==> s[i] == 0
  {
    if |s| > 0 {
      ValZero(s[1..]);
      ShlZero(s[0], 32 * (|s| - 1));
      assert forall i :: 1 <= i < |s| ==> s[i] == s[1..][i - 1];
    }
  }

  /** The words from index `k` on are the low part of the value, those before it the rest. */
  lemma ValParts(s: seq<Word>, k: nat)
    requires k <= |s|
    ensures Val(s) == Scale(Val(s[..k]), |s| - k) + Val(s[k..]) && Val(s[k..]) < Pw(|s| - k)
  {
    assert s == s[..k] + s[k..];
    ValConcat(s[..k], s[k..]);
    ValBound(s[k..]);
  }

  lemma ValShrLow(s: seq<Word>, k: nat)
    requires k <= |s|
    ensures Val(s[..k]) == Shr(Val(s), 32 * (|s| - k)) && Val(s[k..]) == Low(Val(s), 32 * (|s| - k))
  {
    ValParts(s, k);
    ShrLowUnique(Val(s), 32 * (|s| - k), Val(s[..k]), Val(s[k..]));
  }

  lemma LastWord(s: seq<Word>)
    requires |s| > 0
    ensures s[|s| - 1] == Val(s) % 0x1_0000_0000
  {
    var n := |s| - 1;
    ValParts(s, n);
    assert s[n..] == [s[n]] && [s[n]][1..] == [];
    Shl32(Val(s[..n]));
  }

  /** The words of a row are the digits of its value. */
  lemma WordOf(s: seq<Word>, i: nat)
    requires i < |s|
    ensures s[i] == Shr(Val(s), 32 * (|s| - 1 - i)) % 0x1_0000_0000
    ensures Val(s[i + 1..]) == Low(Val(s), 32 * (|s| - 1 - i))
  {
    LastWord(s[..i + 1]);
    ValShrLow(s, i + 1);
  }
}
