/** TEE_BigIntCmp, TEE_BigIntLeftShift, TEE_BigIntDivide and TEE_BigIntReduceMod. */
module BigDiv {
  import opened Products
  import opened BigNat
  import opened BigAdd
  import opened BigBits
  import opened BigMult

  // ----- comparison

  /** The first word that differs decides. */
  lemma {:induction false} FirstDifference(a: seq<Word>, b: seq<Word>, i: nat)
    requires |a| == |b| && i < |a| && a[..i] == b[..i] && a[i] < b[i]
    ensures Val(a) < Val(b)
  {
    if i == 0 {
      var x: nat, y: nat := a[0], b[0];
      ValBound(a[1..]);
      ShlMonotone(x + 1, y, 32 * (|a| - 1));
      ShlAdd(x, 1, 32 * (|a| - 1));
      ScaleOne(|a| - 1);
    } else {
      assert a[0] == a[..i][0] == b[..i][0] == b[0];
      assert a[1..][..i - 1] == a[..i][1..] == b[..i][1..] == b[1..][..i - 1];
      FirstDifference(a[1..], b[1..], i - 1);
    }
  }

  /** With equal top words the sign of the comparison; otherwise the lowest bit of the first
      operand's top word decides, which is what the source's test of its sign bit amounts to. */
  method Cmp(op1: array<Word>, op2: array<Word>) returns (r: int)
    requires op1.Length == op2.Length > 0
    ensures op1[0] == op2[0] ==> (r < 0 <==> Val(op1[..]) < Val(op2[..])) && (r > 0 <==> Val(op1[..]) > Val(op2[..]))
    ensures op1[0] != op2[0] ==> r == if op1[0] % 2 == 1 then -1 else 1
    ensures -1 <= r <= 1
  {
    r := 0;
    if op1[0] == op2[0] {
      var i := 0;
      while i < op1.Length
        invariant 0 <= i <= op1.Length && op1[..i] == op2[..i] && r == 0
      {
        if op1[i] < op2[i] {
          FirstDifference(op1[..], op2[..], i);
          r := -1;
          return;
        }
        if op1[i] > op2[i] {
          FirstDifference(op2[..], op1[..], i);
          r := 1;
          return;
        }
        i := i + 1;
      }
      assert op1[..] == op2[..];
    } else if op1[0] % 2 == 1 {
      r := -1;
    } else {
      r := 1;
    }
  }

  // ----- left shift

  lemma {:induction false} ShrStep(v: nat, k: nat)
    ensures Shr(v, k) == 2 * Shr(v, k + 1) + Bit(v, k)
  {
    if k > 0 { ShrStep(v / 2, k - 1); }
  }

  /** The new word and the bits carried to the next, as the source computes them. */
  function ShiftWord(w: Word, b: nat, put: nat): (r: Word)
    requires b < 32 && put < Pow2(b)
  {
    ShiftWordFits(w, b, put);
    Low(Shl(w, b), 32) + put
  }

  lemma ShiftWordFits(w: nat, b: nat, put: nat)
    requires b < 32 && put < Pow2(b) && w < 0x1_0000_0000
    ensures Low(Shl(w, b), 32) + put < 0x1_0000_0000 && Shr(w, 32 - b) < Pow2(b)
    ensures Shl(w, b) == Low(Shl(w, b), 32) + 0x1_0000_0000 * Shr(w, 32 - b)
  {
    Pow2_32();
    ShrShl(w, b, 32 - b);
    ShrLow(w, 32 - b);
    ShlPlusFits(Low(w, 32 - b), b, put, 32 - b);
    ShrFits(w, 32 - b, b);
    ShrLow(Shl(w, b), 32);
    Shl32(Shr(w, 32 - b));
  }

  /** One word of the shift, on the values of the rows from it on. */
  lemma ShiftSuffixStep(s: seq<Word>, r: seq<Word>, b: nat, put: nat)
    requires |s| == |r| > 0 && b < 32 && put < Pow2(b) && r[0] == ShiftWord(s[0], b, put)
    requires Val(r[1..]) + Scale(put, |s| - 1) == Shl(Val(s[1..]), b)
    ensures Val(r) + Scale(Shr(s[0], 32 - b), |s|) == Shl(Val(s), b)
  {
    var k, v, v' := |s| - 1, Val(s[1..]), Val(r[1..]);
    assert Val(s) == Scale(s[0], k) + v && Val(r) == Scale(r[0], k) + v';
    ShiftDigit(s[0], v, r[0], v', k, b, put);
  }

  lemma ShiftDigit(w: nat, rest: nat, w': nat, rest': nat, k: nat, b: nat, put: nat)
    requires w < 0x1_0000_0000 && b < 32 && put < Pow2(b) && w' == Low(Shl(w, b), 32) + put
    requires rest' + Scale(put, k) == Shl(rest, b)
    ensures Scale(w', k) + rest' + Scale(Shr(w, 32 - b), k + 1) == Shl(Scale(w, k) + rest, b)
  {
    ShiftWordFits(w, b, put);
    ShlAdd(Scale(w, k), rest, b);
    ShlSwap(w, 32 * k, b);
    SuffixStep(Shl(w, b), 0, put, w', Shr(w, 32 - b), k, rest', Shl(rest, b), 0, 0);
    ScaleOne(k);
  }

  /** The whole-word part: the low words move up, zeros follow. */
  lemma WordMoveVal(s: seq<Word>, k: nat)
    requires k <= |s|
    ensures Val(s[k..] + Zeros(k)) == Low(Shl(Val(s), 32 * k), 32 * |s|)
  {
    ZerosAfter(s[k..], k);
    ValShrLow(s, k);
    MovedLow(Val(s), Val(s[k..]), k, |s| - k, |s|);
  }

  lemma MovedLow(v: nat, lo: nat, k: nat, j: nat, n: nat)
    requires lo == Low(v, 32 * j) && n == k + j
    ensures Shl(lo, 32 * k) == Low(Shl(v, 32 * k), 32 * n)
  {
    ShrShl(v, 32 * k, 32 * j);
  }

  lemma ZerosAfter(s: seq<Word>, k: nat)
    ensures Val(s + Zeros(k)) == Shl(Val(s), 32 * k)
  {
    ValConcat(s, Zeros(k));
    ValZero(Zeros(k));
  }

  lemma LowShlLow(v: nat, a: nat, b: nat, w: nat)
    requires a <= w
    ensures Low(Shl(Low(Shl(v, a), w), b), w) == Low(Shl(v, a + b), w)
  {
    var u := Shl(v, a);
    ShlShl(v, a, b);
    ShrLow(u, w);
    LowShlSame(u, b, w);
  }

  /** Low bits of a shift depend on low bits only. */
  lemma {:induction false} LowShlSame(u: nat, b: nat, w: nat)
    ensures Low(Shl(Low(u, w), b), w) == Low(Shl(u, b), w)
  {
    if b == 0 {
      LowLow(u, w);
    } else if w > 0 {
      var x := Shl(Low(u, w), b);
      assert x / 2 == Shl(Low(u, w), b - 1) && Shl(u, b) / 2 == Shl(u, b - 1);
      LowShlMore(u, b - 1, w, w - 1);
    }
  }

  lemma {:induction false} LowShlMore(u: nat, b: nat, w: nat, k: nat)
    requires k <= w
    ensures Low(Shl(Low(u, w), b), k) == Low(Shl(u, b), k)
  {
    if b == 0 {
      LowOfLow(u, w, k);
    } else if k > 0 {
      LowShlMore(u, b - 1, w, k - 1);
    }
  }

  lemma {:induction false} LowOfLow(u: nat, w: nat, k: nat)
    requires k <= w
    ensures Low(Low(u, w), k) == Low(u, k)
  {
    if k > 0 { LowOfLow(u / 2, w - 1, k - 1); }
  }

  lemma LowLow(u: nat, w: nat)
    ensures Low(Low(u, w), w) == Low(u, w)
  {
    LowOfLow(u, w, w);
  }

  /** The word move in place within the source. */
  method MoveWords(src: array<Word>, k: nat)
    requires k <= src.Length
    modifies src
    ensures src[..] == old(src[k..]) + Zeros(k)
  {
    ghost var s := src[..];
    var i := 0;
    while i < src.Length - k
      invariant 0 <= i <= src.Length - k
      invariant forall j :: 0 <= j < i ==> src[j] == s[j + k]
      invariant forall j :: i <= j < src.Length ==> src[j] == s[j]
    {
      src[i] := src[i + k];
      i := i + 1;
    }
    while i < src.Length
      invariant src.Length - k <= i <= src.Length
      invariant forall j :: 0 <= j < src.Length - k ==> src[j] == s[j + k]
      invariant forall j :: src.Length - k <= j < i ==> src[j] == 0
    {
      src[i] := 0;
      i := i + 1;
    }
  }

  /** The top `bits` bits of a word, collected one by one. */
  method TopBits(value: Word, bits: nat) returns (getBit: nat)
    requires bits < 32
    ensures getBit == Shr(value, 32 - bits)
  {
    getBit := 0;
    Pow2_32();
    ShlOneZero(32);
    ShrLowUnique(value, 32, 0, value);
    var j := 0;
    while j < bits
      invariant 0 <= j <= bits && getBit == Shr(value, 32 - j)
    {
      ShrStep(value, 31 - j);
      getBit := 2 * getBit + Bit(value, 31 - j);
      j := j + 1;
    }
  }

  /** Multiplies by 2^bits modulo the width.  The source is shifted by whole words in place first,
      so it is not kept when it is not the destination. */
  method LeftShift(dest: array<Word>, src: array<Word>, bits: nat)
    requires dest.Length == src.Length && bits < 32 * src.Length
    modifies dest, src
    ensures Val(dest[..]) == Low(Shl(Val(old(src[..])), bits), 32 * src.Length)
    ensures dest != src ==> src[..] == (if bits >= 32 then old(src[bits / 32..]) + Zeros(bits / 32) else old(src[..]))
  {
    WordMoveVal(src[..], bits / 32);
    LowShlLow(Val(src[..]), 32 * (bits / 32), bits % 32, 32 * src.Length);
    assert src[..][0..] + Zeros(0) == src[..];
    if bits >= 32 {
      MoveWords(src, bits / 32);
    }
    ShiftBits(dest, src, bits % 32);
  }

  /** The bit part of the shift. */
  method ShiftBits(dest: array<Word>, src: array<Word>, b: nat)
    requires dest.Length == src.Length && b < 32
    modifies dest
    ensures Val(dest[..]) == Low(Shl(Val(old(src[..])), b), 32 * src.Length)
  {
    ghost var s := src[..];
    var n := src.Length;
    var putBit: nat := 0;
    var i := n - 1;
    assert s[n..] == [] && dest[n..] == [];
    ShlOneZero(b);
    while i >= 0
      invariant -1 <= i < n && putBit < Pow2(b)
      invariant forall k :: 0 <= k <= i ==> src[k] == s[k]
      invariant Val(dest[i + 1..]) + Scale(putBit, n - i - 1) == Shl(Val(s[i + 1..]), b)
    {
      putBit := ShiftOne(dest, src, i, b, putBit, s);
      i := i - 1;
    }
    assert dest[0..] == dest[..] && s[0..] == s;
    ShiftEnd(s, dest[..], b, putBit);
  }

  /** One word of it: `putBit` are the bits that come in from below, `getBit` those that go on. */
  method ShiftOne(dest: array<Word>, src: array<Word>, i: nat, b: nat, putBit: nat, ghost s: seq<Word>)
    returns (getBit: nat)
    requires dest.Length == src.Length == |s| && i < |s| && src[i] == s[i] && b < 32 && putBit < Pow2(b)
    requires Val(dest[i + 1..]) + Scale(putBit, |s| - i - 1) == Shl(Val(s[i + 1..]), b)
    modifies dest
    ensures getBit < Pow2(b) && (forall k :: 0 <= k < |s| && k != i ==> dest[k] == old(dest[k]))
    ensures Val(dest[i..]) + Scale(getBit, |s| - i) == Shl(Val(s[i..]), b)
  {
    var value := src[i];
    getBit := TopBits(value, b);
    ShiftWordFits(value, b, putBit);
    ghost var rest := dest[i + 1..];
    dest[i] := ShiftWord(value, b, putBit);
    assert dest[i..][1..] == rest && s[i..][1..] == s[i + 1..];
    ShiftSuffixStep(s[i..], dest[i..], b, putBit);
  }

  lemma ShiftEnd(s: seq<Word>, r: seq<Word>, b: nat, put: nat)
    requires |s| == |r| && Val(r) + Scale(put, |s|) == Shl(Val(s), b)
    ensures Val(r) == Low(Shl(Val(s), b), 32 * |s|)
  {
    ValBound(r);
    ShrLowUnique(Shl(Val(s), b), 32 * |s|, put, Val(r));
  }

  // ----- division on values

  lemma MaxBitMonotone(d: nat, t: nat)
    requires 0 < d <= t
    ensures MaxBit(d) <= MaxBit(t)
  {
    MaxBitBounds(d);
    MaxBitBounds(t);
    Pow2Order(MaxBit(d), MaxBit(t) + 1);
  }

  /** How far the divisor is shifted in the step from remainder `t`. */
  function Diff(t: nat, d: nat): nat
    requires 0 < d <= t
  {
    MaxBitMonotone(d, t);
    MaxBit(t) - MaxBit(d)
  }

  /** The run from remainder `t` never shifts the shifted divisor a second time: at each step the
      divisor fits below the top bit of the remainder, or only just fails to. */
  predicate GoodRun(t: nat, d: nat)
    requires d > 0
    decreases t
  {
    if t < d then true
    else
      var k := Diff(t, d);
      ShlZero(d, k);
      if k == 0 then GoodRun(t - d, d)
      else if t >= Shl(d, k) then GoodRun(t - Shl(d, k), d)
      else k == 1 && GoodRun(t - d, d)
  }

  /** Every run with a power of two as divisor is good. */
  lemma {:induction false} PowerDivisorGood(t: nat, m: nat)
    ensures GoodRun(t, Pow2(m))
    decreases t
  {
    var d := Pow2(m);
    if t >= d {
      PowerBits(m, 0);
      var k := Diff(t, d);
      MaxBitBounds(t);
      ShlOneZero(m);
      ShlShl(1, m, k);
      ShlOneZero(m + k);
      ShlZero(d, k);
      if k == 0 { PowerDivisorGood(t - d, m); } else { PowerDivisorGood(t - Shl(d, k), m); }
    }
  }

  lemma {:induction false} PowerNotBad(m: nat)
    ensures !Bad(Pow2(m))
  {
    forall s: nat ensures !BadAt(Pow2(m), s) {
      ShlOneZero(m);
      if s <= m {
        ShlLow(1, m, s);
      } else {
        Pow2Monotone(m, s);
        ShlOneZero(s);
        ShrLowUnique(Pow2(m), s, 0, Pow2(m));
      }
    }
  }

  /** So is every run whose dividend is less than a bit longer than needed. */
  lemma {:induction false} CloseRunGood(t: nat, d: nat)
    requires d > 0 && (t >= d ==> Diff(t, d) <= 1)
    ensures GoodRun(t, d)
    decreases t
  {
    if t >= d {
      var k := Diff(t, d);
      ShlZero(d, k);
      var s := if k == 0 || t < Shl(d, k) then d else Shl(d, k);
      if t - s >= d {
        MaxBitMonotone(t - s, t);
      }
      CloseRunGood(t - s, d);
    }
  }

  /** 8 divided by 3 takes the branch that shifts twice. */
  lemma EightByThree()
    ensures !GoodRun(8, 3)
  {
    assert MaxBit(8) == 3 && MaxBit(3) == 1;
    assert Shl(3, 2) == 12;
  }

  // ----- exact steps

  lemma {:induction false} NoBorrowFromZero(a: seq<Word>, b: seq<Word>, i: nat)
    requires |a| == |b| && i <= |a| && Val(b[i..]) == 0
    ensures BorrowAt(a, b, i) == 0
    decreases |a| - i
  {
    if i < |a| {
      assert b[i..][1..] == b[i + 1..];
      ValZero(b[i..]);
      ValZero(b[i + 1..]);
      assert b[i..][0] == b[i];
      NoBorrowFromZero(a, b, i + 1);
    }
  }

  /** Subtracting a shifted good number is exact, but for the borrow out of the top word. */
  lemma SubShifted(a: seq<Word>, b: seq<Word>, d: nat, x: nat)
    requires |a| == |b| > 0 && Val(b) == Shl(d, x) && !Bad(d)
    ensures Val(SubWords(a, b)) == Val(a) - Val(b) + if Val(b) <= Val(a) then 0 else Pw(|a|)
  {
    forall i | 1 <= i < |a| ensures !LostBorrow(a, b, i) {
      if LostBorrow(a, b, i) {
        if Val(b[i + 1..]) == 0 { NoBorrowFromZero(a, b, i + 1); }
        OnesWordMeansBad(b, i, d, x);
      }
    }
    LostBorrowSumBound(a, b, 1);
    var top := SubTotal(a, b);
    ValBound(a);
    ValBound(b);
    ValBound(SubWords(a, b));
    TopIsOne(top, |a|, Val(SubWords(a, b)), Val(a), Val(b));
  }

  lemma TopIsOne(top: nat, n: nat, r: nat, a: nat, b: nat)
    requires r < Pw(n) && a < Pw(n) && b < Pw(n) && r + b == a + Scale(top, n)
    ensures r == a - b + if b <= a then 0 else Pw(n)
  {
    ShlPow2(top, 32 * n);
    if top >= 2 { MulLe(2, top, Pw(n)); }
  }

  /** The row with word `w` at place `j` and zeros elsewhere. */
  function At(n: nat, j: nat, w: Word): (r: seq<Word>)
    requires j < n
    ensures |r| == n
  {
    Zeros(n - 1 - j) + [w] + Zeros(j)
  }

  lemma PowerAt(n: nat, j: nat, b: nat)
    requires j < n && b < 32
    ensures Pow2(b) < 0x1_0000_0000 && Val(At(n, j, Pow2(b))) == Pow2(32 * j + b)
  {
    Pow2_32();
    Pow2Monotone(b, 32);
    ZerosAfter(Zeros(n - 1 - j) + [Pow2(b)], j);
    SingleVal(n - j, Pow2(b));
    ShlOneZero(b);
    ShlShl(1, b, 32 * j);
    ShlOneZero(32 * j + b);
  }

  /** Adding a row that has no all-ones word is exact modulo the width. */
  lemma AddPower(q: seq<Word>, n: nat, j: nat, w: Word)
    requires |q| == n && j < n && w != ONES
    ensures Val(AddWords(q, At(n, j, w))) == (Val(q) + Val(At(n, j, w))) % Pw(n)
  {
    AddExactIff(q, At(n, j, w));
  }

  // ----- the division loop

  /** A run that may go bad, but only by little: the doubly shifted divisor exceeds the remainder by no
      more than the lower words hold, and one word takes the wrong quotient digit. */
  predicate SafeRun(t: nat, d: nat, n: nat)
    requires d > 0 && n > 0
    decreases t
  {
    if t < d then true
    else
      var k := Diff(t, d);
      ShlZero(d, k);
      if k == 0 then SafeRun(t - d, d, n)
      else if t >= Shl(d, k) then SafeRun(t - Shl(d, k), d, n)
      else if k == 1 then SafeRun(t - d, d, n)
      else k < 31 && Shl(d, k + (k - 1)) <= t + Pw(n - 1)
  }

  lemma {:induction false} GoodIsSafe(t: nat, d: nat, n: nat)
    requires d > 0 && n > 0 && GoodRun(t, d)
    ensures SafeRun(t, d, n)
    decreases t
  {
    if t >= d {
      var k := Diff(t, d);
      ShlZero(d, k);
      if k == 0 { GoodIsSafe(t - d, d, n); }
      else if t >= Shl(d, k) { GoodIsSafe(t - Shl(d, k), d, n); }
      else { GoodIsSafe(t - d, d, n); }
    }
  }

  /** So is every run of a dividend less than half as long as the lower words. */
  lemma {:induction false} ShortIsSafe(t: nat, d: nat, n: nat)
    requires d > 0 && n > 0 && 2 * MaxBit(t) < 32 * (n - 1) && (t >= d ==> Diff(t, d) < 31)
    ensures SafeRun(t, d, n)
    decreases t
  {
    if t >= d {
      var k := Diff(t, d);
      ShlZero(d, k);
      if k > 1 && t < Shl(d, k) {
        MaxBitBounds(d);
        ShlPlusFits(d, k + (k - 1), 0, MaxBit(d) + 1);
        Pow2Monotone(k + (k - 1) + (MaxBit(d) + 1), 32 * (n - 1));
      } else {
        var s := if k == 0 || t < Shl(d, k) then d else Shl(d, k);
        if t > s { MaxBitMonotone(t - s, t); }
        if t - s >= d { MaxBitMonotone(d, t - s); }
        ShortIsSafe(t - s, d, n);
      }
    }
  }

  method Copy(dest: array<Word>, src: array<Word>)
    requires dest.Length == src.Length
    modifies dest
    ensures dest[..] == old(src[..])
  {
    ghost var s := src[..];
    var i := 0;
    while i < src.Length
      invariant 0 <= i <= src.Length && dest[..i] == s[..i]
      invariant forall k :: i <= k < src.Length ==> src[k] == s[k]
    {
      dest[i] := src[i];
      i := i + 1;
    }
  }

  lemma Wraps(total: nat, n: nat) returns (w: nat)
    ensures total % Pw(n) + Scale(w, n) == total
  {
    w := Shr(total, 32 * n);
    ShrLow(total, 32 * n);
    ShlPow2(w, 32 * n);
    DivModUnique(total, Pw(n), w, Low(total, 32 * n));
  }

  /** tmp1 -= op2, quotient + 1. */
  method TakeOne(tmp1: array<Word>, op2: array<Word>, destQ: array<Word>) returns (ghost w: nat)
    requires tmp1.Length == op2.Length == destQ.Length > 0 && tmp1 != op2 && destQ != op2 && tmp1 != destQ
    requires !Bad(Val(op2[..])) && Val(op2[..]) <= Val(tmp1[..])
    modifies tmp1, destQ
    ensures Val(tmp1[..]) == old(Val(tmp1[..])) - Val(op2[..])
    ensures Val(destQ[..]) + Scale(w, destQ.Length) == old(Val(destQ[..])) + 1
  {
    SubShifted(tmp1[..], op2[..], Val(op2[..]), 0);
    w := Wraps(Val(destQ[..]) + 1, destQ.Length);
    Sub(tmp1, tmp1, op2);
    Increment(destQ);
  }

  /** quotient + 2^k for a `k` within the width. */
  method AddDigit(destQ: array<Word>, j: nat, b: nat) returns (ghost w: nat)
    requires j < destQ.Length && b < 32
    modifies destQ
    ensures Val(destQ[..]) + Scale(w, destQ.Length) == old(Val(destQ[..])) + Pow2(32 * j + b)
  {
    var n := destQ.Length;
    w := Wraps(Val(destQ[..]) + Pow2(32 * j + b), n);
    PowerAt(n, j, b);
    OnesIsOdd(b);
    AddPower(destQ[..], n, j, Pow2(b));
    var adder := new Word[n](_ => 0);
    adder[n - 1 - j] := Pow2(b);
    assert adder[..] == At(n, j, Pow2(b));
    Add(destQ, destQ, adder);
  }

  lemma OnesIsOdd(b: nat)
    ensures Pow2(b) != ONES
  {
    if b > 0 { assert Pow2(b) % 2 == 0; }
  }

  /** The shifted divisor: the shift is exact when it stays below the top bit. */
  method Shifted(shifted: array<Word>, op2: array<Word>, k: nat, ghost c: nat)
    requires shifted.Length == op2.Length > 0 && shifted != op2
    requires Val(op2[..]) < Pow2(c) && k + c <= 32 * op2.Length && c > 0
    modifies shifted
    ensures Val(shifted[..]) == Shl(Val(op2[..]), k)
  {
    Copy(shifted, op2);
    assert k < 32 * op2.Length;
    LeftShift(shifted, shifted, k);
    LowOfSmall(Val(op2[..]), k, c, 32 * op2.Length);
  }

  lemma LowOfSmall(d: nat, k: nat, c: nat, w: nat)
    requires d < Pow2(c) && k + c <= w
    ensures Low(Shl(d, k), w) == Shl(d, k)
  {
    ShlPlusFits(d, k, 0, c);
    Pow2Monotone(k + c, w);
    ShlOneZero(w);
    ShrLowUnique(Shl(d, k), w, 0, Shl(d, k));
  }

  /** The branch that shifts a second time. */
  method BadStep(tmp1: array<Word>, shifted: array<Word>, destQ: array<Word>, k: nat, ghost d: nat)
    requires tmp1.Length == shifted.Length == destQ.Length > 1
    requires tmp1 != shifted && destQ != shifted && tmp1 != destQ
    requires 2 <= k < 31 && !Bad(d)
    requires Val(shifted[..]) == Shl(d, k) > Val(tmp1[..]) && Val(tmp1[..]) < Pw(tmp1.Length - 1)
    requires Shl(d, k + (k - 1)) <= Val(tmp1[..]) + Pw(tmp1.Length - 1)
    modifies tmp1, shifted, destQ
    ensures tmp1[0] == ONES && Val(tmp1[..]) >= Pw(tmp1.Length) - Pw(tmp1.Length - 1)
  {
    DoubleShift(d, Val(tmp1[..]), k, tmp1.Length);
    LeftShift(shifted, shifted, k - 1);
    ghost var w := AddDigit(destQ, k / 31, (k % 31) - 1);
    SubtractTooMuch(tmp1, shifted, d, k + (k - 1));
  }

  /** Subtracting a little more than there is leaves a top word of ones. */
  method SubtractTooMuch(tmp1: array<Word>, shifted: array<Word>, ghost d: nat, ghost x: nat)
    requires tmp1.Length == shifted.Length > 1 && tmp1 != shifted && !Bad(d) && Val(shifted[..]) == Shl(d, x)
    requires Val(tmp1[..]) < Val(shifted[..]) <= Val(tmp1[..]) + Pw(tmp1.Length - 1)
    modifies tmp1
    ensures tmp1[0] == ONES && Val(tmp1[..]) >= Pw(tmp1.Length) - Pw(tmp1.Length - 1)
  {
    SubShifted(tmp1[..], shifted[..], d, x);
    Sub(tmp1, tmp1, shifted);
    TopWordOnes(tmp1[..]);
  }

  /** The doubly shifted divisor is larger than the remainder and fits the width. */
  lemma DoubleShift(d: nat, t: nat, k: nat, n: nat)
    requires n > 1 && t < Pw(n - 1) && k > 0 && Shl(d, k) > t && Shl(d, k + (k - 1)) <= t + Pw(n - 1)
    ensures Low(Shl(Shl(d, k), k - 1), 32 * n) == Shl(d, k + (k - 1))
    ensures t < Shl(d, k + (k - 1)) < Pw(n)
  {
    PwStep(n - 1);
    ShlShl(d, k, k - 1);
    ShlGrows(Shl(d, k), k - 1);
    ShlOneZero(32 * n);
    ShrLowUnique(Shl(d, k + (k - 1)), 32 * n, 0, Shl(d, k + (k - 1)));
  }

  lemma {:induction false} ShlGrows(v: nat, k: nat)
    ensures Shl(v, k) >= v
  {
    if k > 0 { ShlGrows(v, k - 1); }
  }

  lemma TopWordOnes(s: seq<Word>)
    requires |s| > 0 && Val(s) >= Pw(|s|) - Pw(|s| - 1)
    ensures s[0] == ONES
  {
    ValBound(s[1..]);
    if s[0] < ONES { ScaleRoom(s[0], |s| - 1); }
  }

  lemma ScaleRoom(x: nat, k: nat)
    requires x + 2 <= 0x1_0000_0000
    ensures Scale(x, k) + 2 * Pw(k) <= Pw(k + 1)
  {
    ShlMonotone(x + 2, 0x1_0000_0000, 32 * k);
    ShlAdd(x, 2, 32 * k);
    ShlAdd(1, 1, 32 * k);
    ScaleBase(1, k);
    ScaleOne(k);
    ScaleOne(k + 1);
  }

  lemma TopWordZero(s: seq<Word>)
    requires |s| > 0 && Val(s) < Pw(|s| - 1)
    ensures s[0] == 0
  {
    var x: nat := s[0];
    ScaleOne(|s| - 1);
    if x > 0 { ShlMonotone(1, x, 32 * (|s| - 1)); }
  }

  lemma QuotientStep(v: nat, q: nat, t: nat, e: nat, t': nat, d: nat, w: nat, w': nat, n: nat)
    requires Times(q, d) + t == v && Shl(d, e) + t' == t
    ensures Times(q + Pow2(e), d) + t' == v && Scale(w + w', n) == Scale(w, n) + Scale(w', n)
  {
    TimesIs(q, d);
    TimesIs(q + Pow2(e), d);
    ShlAdd(w, w', 32 * n);
    ShlPow2(d, e);
    MulAdd(q, Pow2(e), d);
  }

  lemma QuotientMod(total: nat, q: seq<Word>, w: nat)
    requires Val(q) + Scale(w, |q|) == total
    ensures Val(q) == total % Pw(|q|)
  {
    ValBound(q);
    ShlPow2(w, 32 * |q|);
    DivModUnique(total, Pw(|q|), w, Val(q));
  }

  /** One round that subtracts the shifted divisor: the usual case. */
  method TakeShifted(tmp1: array<Word>, shifted: array<Word>, destQ: array<Word>, k: nat, ghost d: nat)
    returns (ghost w: nat)
    requires tmp1.Length == shifted.Length == destQ.Length > 0
    requires tmp1 != shifted && destQ != shifted && tmp1 != destQ
    requires k < 32 * destQ.Length && !Bad(d) && Val(shifted[..]) == Shl(d, k) <= Val(tmp1[..])
    modifies tmp1, destQ
    ensures Val(tmp1[..]) == old(Val(tmp1[..])) - Shl(d, k)
    ensures Val(destQ[..]) + Scale(w, destQ.Length) == old(Val(destQ[..])) + Pow2(k)
  {
    w := AddDigit(destQ, k / 32, k % 32);
    SubShifted(tmp1[..], shifted[..], d, k);
    Sub(tmp1, tmp1, shifted);
  }

  lemma DiffFits(t: nat, d: nat, n: nat)
    requires n > 0 && 0 < d <= t < Pw(n)
    ensures Diff(t, d) + (MaxBit(d) + 1) <= 32 * n && d < Pow2(MaxBit(d) + 1) && Shl(d, 0) == d
  {
    MaxBitBounds(t);
    MaxBitBounds(d);
    Pow2Order(MaxBit(t), 32 * n);
  }

  /** A round whose remainder is longer than the divisor.  A good round takes off a shifted divisor
      and adds that power of two to the quotient; a bad one leaves an all-ones top word. */
  method LongRound(tmp1: array<Word>, shifted: array<Word>, destQ: array<Word>, op2: array<Word>, k: nat,
      ghost t: nat, ghost d: nat)
      returns (ghost good: bool, ghost e: nat, ghost w: nat)
    requires tmp1.Length == shifted.Length == destQ.Length == op2.Length > 1
    requires tmp1 != shifted && destQ != shifted && tmp1 != destQ && op2 != tmp1 && op2 != shifted && op2 != destQ
    requires Val(op2[..]) == d && Val(tmp1[..]) == t && !Bad(d) && 0 < d <= t < Pw(tmp1.Length - 1)
    requires k == Diff(t, d) > 0
    requires (k == 1 || Shl(d, k) <= t || (k < 31 && Shl(d, k + (k - 1)) <= t + Pw(tmp1.Length - 1)))
    modifies tmp1, shifted, destQ
    ensures good == (k == 1 || Shl(d, k) <= t)
    ensures good ==> e == (if Shl(d, k) <= t then k else 0) && Val(tmp1[..]) == t - Shl(d, e)
    ensures good ==> Val(destQ[..]) + Scale(w, destQ.Length) == old(Val(destQ[..])) + Pow2(e)
    ensures !good ==> tmp1[0] == ONES && Val(tmp1[..]) >= Pw(tmp1.Length) - Pw(tmp1.Length - 1)
  {
    good, e, w := true, 0, 0;
    DiffFits(t, d, tmp1.Length - 1);
    PwStep(tmp1.Length - 1);
    Shifted(shifted, op2, k, MaxBit(d) + 1);
    SameTop(tmp1[..], shifted[..], t, d, tmp1.Length);
    var c := Cmp(tmp1, shifted);
    if c >= 0 {
      e := k;
      w := TakeShifted(tmp1, shifted, destQ, k, d);
    } else if k - 1 != 0 {
      good := false;
      BadStep(tmp1, shifted, destQ, k, d);
    } else {
      w := TakeOne(tmp1, op2, destQ);
    }
  }

  /** What one round takes off the remainder: the divisor shifted to its length if that fits, or unshifted when
      the two are less than two bits apart. */
  method TakeRound(tmp1: array<Word>, shifted: array<Word>, destQ: array<Word>, op2: array<Word>, ghost t: nat,
      ghost d: nat)
      returns (ghost good: bool, ghost e: nat, ghost w: nat)
    requires tmp1.Length == shifted.Length == destQ.Length == op2.Length > 1
    requires tmp1 != shifted && destQ != shifted && tmp1 != destQ && op2 != tmp1 && op2 != shifted && op2 != destQ
    requires Val(op2[..]) == d && Val(tmp1[..]) == t && !Bad(d) && 0 < d <= t < Pw(tmp1.Length - 1)
    requires Shl(d, 0) == d
    requires var k := Diff(t, d);
      k <= 1 || Shl(d, k) <= t || (k < 31 && Shl(d, k + (k - 1)) <= t + Pw(tmp1.Length - 1))
    modifies tmp1, shifted, destQ
    ensures good == (Diff(t, d) <= 1 || Shl(d, Diff(t, d)) <= t)
    ensures good ==> e == (if Diff(t, d) > 0 && Shl(d, Diff(t, d)) <= t then Diff(t, d) else 0)
    ensures good ==> Val(tmp1[..]) == t - Shl(d, e)
    ensures good ==> Val(destQ[..]) + Scale(w, destQ.Length) == old(Val(destQ[..])) + Pow2(e)
    ensures !good ==> tmp1[0] == ONES && Val(tmp1[..]) >= Pw(tmp1.Length) - Pw(tmp1.Length - 1)
  {
    good, e, w := true, 0, 0;
    var bits1 := MaxBitPos(tmp1);
    var bits2 := MaxBitPos(op2);
    MaxBitMonotone(d, t);
    var diffBit := bits1 - bits2;
    if diffBit != 0 {
      good, e, w := LongRound(tmp1, shifted, destQ, op2, diffBit, t, d);
    } else {
      Copy(shifted, op2);
      w := TakeOne(tmp1, op2, destQ);
    }
  }

  /** One round of the division loop. */
  method Round(tmp1: array<Word>, shifted: array<Word>, destQ: array<Word>, op2: array<Word>, ghost t: nat,
      ghost d: nat)
      returns (ghost good: bool, ghost e: nat, ghost w: nat)
    requires tmp1.Length == shifted.Length == destQ.Length == op2.Length > 1
    requires tmp1 != shifted && destQ != shifted && tmp1 != destQ && op2 != tmp1 && op2 != shifted && op2 != destQ
    requires Val(op2[..]) == d && Val(tmp1[..]) == t && !Bad(d) && 0 < d <= t < Pw(tmp1.Length - 1)
    requires SafeRun(t, d, tmp1.Length)
    modifies tmp1, shifted, destQ
    ensures good ==> Shl(d, e) <= t && Val(tmp1[..]) == t - Shl(d, e) < t && GoodRun(t, d) == GoodRun(t - Shl(d, e), d)
    ensures good ==> SafeRun(t - Shl(d, e), d, tmp1.Length)
    ensures good ==> Val(destQ[..]) + Scale(w, destQ.Length) == old(Val(destQ[..])) + Pow2(e)
    ensures !good ==> !GoodRun(t, d) && tmp1[0] == ONES && Val(tmp1[..]) >= Pw(tmp1.Length) - Pw(tmp1.Length - 1)
  {
    RunStep(t, d, tmp1.Length);
    good, e, w := TakeRound(tmp1, shifted, destQ, op2, t, d);
  }

  lemma RunStep(t: nat, d: nat, n: nat)
    requires 0 < d <= t && n > 0
    ensures 0 < Shl(d, Diff(t, d)) && Shl(d, 0) == d
    ensures var k := Diff(t, d);
      var s := if k == 0 || Shl(d, k) > t then d else Shl(d, k);
      if k > 1 && Shl(d, k) > t
      then !GoodRun(t, d) && (SafeRun(t, d, n) ==> k < 31 && Shl(d, k + (k - 1)) <= t + Pw(n - 1))
      else GoodRun(t, d) == GoodRun(t - s, d) && SafeRun(t, d, n) == SafeRun(t - s, d, n)
  {
    ShlZero(d, Diff(t, d));
  }

  /** In the source the comparison with the shifted divisor reads the top words first: they agree,
      since neither number reaches the top word. */
  lemma SameTop(a: seq<Word>, b: seq<Word>, t: nat, d: nat, n: nat)
    requires |a| == |b| == n > 1 && 0 < d <= t < Pw(n - 1)
    requires Val(a) == t && Val(b) == Shl(d, Diff(t, d))
    ensures a[0] == b[0] == 0
  {
    DiffFits(t, d, n - 1);
    ShlPlusFits(d, Diff(t, d), 0, MaxBit(d) + 1);
    Pow2Monotone(Diff(t, d) + (MaxBit(d) + 1), 32 * (n - 1));
    TopWordZero(a);
    TopWordZero(b);
  }

  /** The remainder of a bad run is no remainder. */
  lemma BadRemainder(n: nat, d: nat, r: nat)
    requires n > 1 && 0 < d < Pw(n - 1) && r >= Pw(n) - Pw(n - 1)
    ensures r >= d
  {
    PwStep(n - 1);
  }

  /** Where a run that has only had good rounds stands: remainder `t`, quotient `q` of which `w`
      times the width was lost on top of `q0`. */
  ghost predicate Going(rem: nat, quot: nat, n: nat, v: nat, d: nat, q0: nat, t: nat, q: nat, w: nat)
    requires d > 0 && n > 0
  {
    rem == t <= v && Times(q, d) + t == v && quot + Scale(w, n) == q0 + q &&
    GoodRun(t, d) == GoodRun(v, d) && SafeRun(t, d, n)
  }

  /** Where a run that took the bad branch ends. */
  ghost predicate Gone(rem: nat, n: nat, v: nat, d: nat)
    requires d > 0 && n > 0
  {
    !GoodRun(v, d) && rem >= Pw(n) - Pw(n - 1)
  }

  method LoopBody(tmp1: array<Word>, shifted: array<Word>, destQ: array<Word>, op2: array<Word>,
      ghost v: nat, ghost d: nat, ghost q0: nat, ghost t: nat, ghost q: nat, ghost w: nat)
      returns (ghost good: bool, ghost t': nat, ghost q': nat, ghost w': nat)
    requires tmp1.Length == shifted.Length == destQ.Length == op2.Length > 1
    requires tmp1 != shifted && destQ != shifted && tmp1 != destQ && op2 != tmp1 && op2 != shifted && op2 != destQ
    requires Val(op2[..]) == d && op2[0] == 0 && !Bad(d) && 0 < d <= t && v < Pw(tmp1.Length - 1)
    requires Going(Val(tmp1[..]), Val(destQ[..]), tmp1.Length, v, d, q0, t, q, w)
    modifies tmp1, shifted, destQ
    ensures good ==> Going(Val(tmp1[..]), Val(destQ[..]), tmp1.Length, v, d, q0, t', q', w') && t' < t
    ensures !good ==> Gone(Val(tmp1[..]), tmp1.Length, v, d) && tmp1[0] == ONES && t' == t
  {
    ghost var e, carry;
    good, e, carry := Round(tmp1, shifted, destQ, op2, t, d);
    t', q', w' := t, q, w;
    if good {
      t', q', w' := t - Shl(d, e), q + Pow2(e), w + carry;
      GoingOn(old(Val(destQ[..])), Val(destQ[..]), tmp1.Length, v, d, q0, t, q, w, e, carry);
    }
  }

  lemma GoingOn(quot: nat, quot': nat, n: nat, v: nat, d: nat, q0: nat, t: nat, q: nat, w: nat, e: nat, carry: nat)
    requires d > 0 && n > 0 && Going(t, quot, n, v, d, q0, t, q, w) && Shl(d, e) <= t && SafeRun(t - Shl(d, e), d, n)
    requires GoodRun(t - Shl(d, e), d) == GoodRun(t, d) && quot' + Scale(carry, n) == quot + Pow2(e)
    ensures Going(t - Shl(d, e), quot', n, v, d, q0, t - Shl(d, e), q + Pow2(e), w + carry)
  {
    QuotientStep(v, q, t, e, t - Shl(d, e), d, w, carry, n);
  }

  /** The loop: `v` is the dividend and `q0` what the quotient held before. */
  method DivideLoop(tmp1: array<Word>, shifted: array<Word>, destQ: array<Word>, op2: array<Word>,
      ghost v: nat, ghost d: nat, ghost q0: nat) returns (ghost good: bool, ghost q: nat, ghost w: nat)
    requires tmp1.Length == shifted.Length == destQ.Length == op2.Length > 1
    requires tmp1 != shifted && destQ != shifted && tmp1 != destQ && op2 != tmp1 && op2 != shifted && op2 != destQ
    requires Val(op2[..]) == d && Val(tmp1[..]) == v && tmp1[0] == op2[0] == 0 && !Bad(d) && 0 < d
    requires Val(destQ[..]) == q0 && v < Pw(tmp1.Length - 1) && SafeRun(v, d, tmp1.Length)
    modifies tmp1, shifted, destQ
    ensures good ==> GoodRun(v, d) && Times(q, d) + Val(tmp1[..]) == v && Val(tmp1[..]) < d
    ensures good ==> Val(destQ[..]) + Scale(w, destQ.Length) == q0 + q
    ensures !good ==> Gone(Val(tmp1[..]), tmp1.Length, v, d)
  {
    good, q, w := true, 0, 0;
    ScaleOne(tmp1.Length);
    ghost var t: nat := v;
    var c := Cmp(tmp1, op2);
    while c >= 0
      invariant op2[..] == old(op2[..])
      invariant good ==> Going(Val(tmp1[..]), Val(destQ[..]), tmp1.Length, v, d, q0, t, q, w) && (c >= 0 <==> t >= d)
      invariant !good ==> Gone(Val(tmp1[..]), tmp1.Length, v, d) && c < 0
      decreases c >= 0, t
    {
      good, t, q, w := LoopBody(tmp1, shifted, destQ, op2, v, d, q0, t, q, w);
      if good { TopWordZero(tmp1[..]); }
      c := Cmp(tmp1, op2);
    }
  }

  /** The division: from a good run the quotient is added to what `destQ` held and the remainder is
      exact; from any other run the remainder is wrong. */
  method Divide(destQ: array<Word>, destR: array<Word>, op1: array<Word>, op2: array<Word>)
    requires destQ.Length == destR.Length == op1.Length == op2.Length > 1 && destQ != op2 && destQ != destR
    requires op1[0] == op2[0] == 0 && Val(op2[..]) > 0 && !Bad(Val(op2[..]))
    requires SafeRun(Val(op1[..]), Val(op2[..]), op1.Length)
    modifies destQ, destR
    ensures old(GoodRun(Val(op1[..]), Val(op2[..]))) <==> Val(destR[..]) == old(Val(op1[..])) % old(Val(op2[..]))
    ensures old(GoodRun(Val(op1[..]), Val(op2[..]))) ==>
              Val(destQ[..]) == (old(Val(destQ[..])) + old(Val(op1[..])) / old(Val(op2[..]))) % Pw(destQ.Length)
  {
    ghost var v, d, q0 := Val(op1[..]), Val(op2[..]), Val(destQ[..]);
    var tmp1 := new Word[op1.Length];
    var shifted := new Word[op1.Length];
    Copy(tmp1, op1);
    SmallTop(op1[..]);
    SmallTop(op2[..]);
    assert tmp1[0] == tmp1[..][0];
    ghost var good, q, w := DivideLoop(tmp1, shifted, destQ, op2, v, d, q0);
    DivideEnd(good, v, d, q, Val(tmp1[..]), tmp1.Length);
    if good { QuotientMod(q0 + q, destQ[..], w); }
    Copy(destR, tmp1);
  }

  lemma SmallTop(s: seq<Word>)
    requires |s| > 0 && s[0] == 0
    ensures Val(s) < Pw(|s| - 1)
  {
    ValBound(s[1..]);
    ScaleOne(|s| - 1);
  }

  lemma DivideEnd(good: bool, v: nat, d: nat, q: nat, r: nat, n: nat)
    requires n > 1 && 0 < d < Pw(n - 1)
    requires good ==> Times(q, d) + r == v && r < d
    requires !good ==> r >= Pw(n) - Pw(n - 1)
    ensures good <==> r == v % d
    ensures good ==> q == v / d
  {
    TimesIs(q, d);
    if good { DivModUnique(v, d, q, r); } else { BadRemainder(n, d, r); }
  }

  /** The remainder, whatever the quotient. */
  method ReduceMod(dest: array<Word>, op: array<Word>, n: array<Word>)
    requires dest.Length == op.Length == n.Length > 1
    requires op[0] == n[0] == 0 && Val(n[..]) > 0 && !Bad(Val(n[..]))
    requires SafeRun(Val(op[..]), Val(n[..]), op.Length)
    modifies dest
    ensures old(GoodRun(Val(op[..]), Val(n[..]))) <==> Val(dest[..]) == old(Val(op[..])) % old(Val(n[..]))
  {
    var temp := new Word[op.Length](_ => 0);
    Divide(temp, dest, op, n);
  }

  // ----- divisors that are right for every dividend

  /** A divisor that is no power of two and leaves two bits below the top word goes wrong on four times
      itself less one: the second shift exceeds that dividend by less than the lower words hold. */
  lemma WrongDividend(d: nat, n: nat)
    requires n > 1 && 0 < d != Pow2(MaxBit(d)) && MaxBit(d) + 2 < 32 * (n - 1)
    ensures d < 4 * d - 1 < Pw(n - 1) && !GoodRun(4 * d - 1, d) && SafeRun(4 * d - 1, d, n)
  {
    var m, t: nat := MaxBit(d), 4 * d - 1;
    MaxBitBounds(d);
    assert Pow2(m + 2) == 2 * Pow2(m + 1) && Pow2(m + 3) == 2 * Pow2(m + 2);
    Pow2Monotone(m + 3, 32 * (n - 1));
    MaxBitUnique(t, m + 2);
    assert Shl(d, 3) == 2 * Shl(d, 2) && Shl(d, 2) == 2 * Shl(d, 1) && Shl(d, 1) == 2 * Shl(d, 0);
  }

  lemma GoodFor(d: nat, n: nat, t: nat)
    requires n > 1 && 0 < d < Pw(n - 1) && t < Pw(n - 1)
    requires d == Pow2(MaxBit(d)) || MaxBit(d) + 2 >= 32 * (n - 1)
    ensures GoodRun(t, d)
  {
    if d == Pow2(MaxBit(d)) {
      PowerDivisorGood(t, MaxBit(d));
    } else {
      if t >= d { DiffFits(t, d, n - 1); }
      CloseRunGood(t, d);
    }
  }

  /** For words of this width the run is good for every dividend below the top word if and only if the
      divisor is a power of two or reaches within two bits of the top word. */
  lemma GoodForAllIff(d: nat, n: nat)
    requires n > 1 && 0 < d < Pw(n - 1)
    ensures (forall t: nat :: t < Pw(n - 1) ==> GoodRun(t, d)) <==>
              d == Pow2(MaxBit(d)) || MaxBit(d) + 2 >= 32 * (n - 1)
  {
    if d == Pow2(MaxBit(d)) || MaxBit(d) + 2 >= 32 * (n - 1) {
      forall t: nat | t < Pw(n - 1) ensures GoodRun(t, d) { GoodFor(d, n, t); }
    } else {
      WrongDividend(d, n);
    }
  }

  /** Divides by such a divisor that is neither: the remainder comes out wrong. */
  method DivideWrongly(destQ: array<Word>, destR: array<Word>, op1: array<Word>, op2: array<Word>)
    requires destQ.Length == destR.Length == op1.Length == op2.Length > 1 && destQ != op2 && destQ != destR
    requires op1[0] == op2[0] == 0 && Val(op2[..]) > 0 && !Bad(Val(op2[..]))
    requires Val(op2[..]) != Pow2(MaxBit(Val(op2[..]))) && MaxBit(Val(op2[..])) + 2 < 32 * (op2.Length - 1)
    requires Val(op1[..]) == 4 * Val(op2[..]) - 1
    modifies destQ, destR
    ensures Val(destR[..]) != old(Val(op1[..])) % old(Val(op2[..]))
  {
    WrongDividend(Val(op2[..]), op2.Length);
    Divide(destQ, destR, op1, op2);
  }

  /** Divides by one that is either: quotient and remainder are right for every dividend. */
  method DivideRightly(destQ: array<Word>, destR: array<Word>, op1: array<Word>, op2: array<Word>)
    requires destQ.Length == destR.Length == op1.Length == op2.Length > 1 && destQ != op2 && destQ != destR
    requires op1[0] == op2[0] == 0 && Val(op2[..]) > 0 && !Bad(Val(op2[..])) && Val(destQ[..]) == 0
    requires Val(op2[..]) == Pow2(MaxBit(Val(op2[..]))) || MaxBit(Val(op2[..])) + 2 >= 32 * (op2.Length - 1)
    modifies destQ, destR
    ensures old(Val(op1[..])) == Times(Val(destQ[..]), old(Val(op2[..]))) + Val(destR[..])
    ensures Val(destR[..]) < old(Val(op2[..]))
  {
    SmallTop(op1[..]);
    SmallTop(op2[..]);
    ghost var q, r := RightAnswer(Val(op1[..]), Val(op2[..]), op1.Length);
    Divide(destQ, destR, op1, op2);
  }

  lemma RightAnswer(v: nat, d: nat, n: nat) returns (q: nat, r: nat)
    requires n > 1 && 0 < d < Pw(n - 1) && v < Pw(n - 1)
    requires d == Pow2(MaxBit(d)) || MaxBit(d) + 2 >= 32 * (n - 1)
    ensures GoodRun(v, d) && SafeRun(v, d, n) && v == Times(q, d) + r && r < d
    ensures r == v % d && q == (0 + v / d) % Pw(n)
  {
    GoodFor(d, n, v);
    GoodIsSafe(v, d, n);
    PwStep(n - 1);
    q, r := QuotientParts(v, d, Pw(n));
  }

  lemma QuotientParts(v: nat, d: nat, m: nat) returns (q: nat, r: nat)
    requires d > 0 && v < m
    ensures v == Times(q, d) + r && r < d && r == v % d && q == (0 + v / d) % m
  {
    QuotientSmall(v, d, m);
    q, r := v / d, v % d;
    TimesIs(q, d);
  }

  /** So a power of two divides every dividend exactly, and what is added to the quotient fits. */
  lemma PowerDivides(v: nat, m: nat, n: nat)
    requires v < Pw(n)
    ensures GoodRun(v, Pow2(m)) && !Bad(Pow2(m)) && (0 + v / Pow2(m)) % Pw(n) == v / Pow2(m)
    ensures v == (v / Pow2(m)) * Pow2(m) + v % Pow2(m) && v % Pow2(m) < Pow2(m)
  {
    PowerNotBad(m);
    PowerDivisorGood(v, m);
    QuotientSmall(v, Pow2(m), Pw(n));
  }

  lemma QuotientSmall(v: nat, d: nat, m: nat)
    requires d > 0 && v < m
    ensures (0 + v / d) % m == v / d && v == (v / d) * d + v % d && v % d < d
  {
    var q, r := v / d, v % d;
    assert v == q * d + r;
    if q >= m { MulLe(m, q, d); MulLe(1, d, m); }
    DivModUnique(q, m, 0, q);
  }
}
