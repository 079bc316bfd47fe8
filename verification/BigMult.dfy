/** TEE_BigIntMult: shift-and-add, and exactly for which multiplicands it is correct. */
module BigMult {
  import opened Products
  import opened BigNat
  import opened BigAdd
  import opened BigBits

  // ----- the algorithm on values

  function Zeros(n: nat): (r: seq<Word>)
    ensures |r| == n
  {
    seq(n, _ => 0)
  }

  /** The temporary after `x` doublings. */
  function Doubled(t: seq<Word>, x: nat): (r: seq<Word>)
    ensures |r| == |t|
  {
    if x == 0 then t else AddWords(Doubled(t, x - 1), Doubled(t, x - 1))
  }

  /** The destination after the bits of `w` below `x`. */
  function Accum(dest: seq<Word>, t: seq<Word>, w: nat, x: nat): (r: seq<Word>)
    requires |dest| == |t|
    ensures |r| == |dest|
  {
    if x == 0 then dest
    else
      var d := Accum(dest, t, w, x - 1);
      if Bit(w, x - 1) == 1 then AddWords(d, Doubled(t, x - 1)) else d
  }

  function MultWords(dest: seq<Word>, op1: seq<Word>, op2: seq<Word>): (r: seq<Word>)
    requires |dest| == 2 * |op1| && |op1| == |op2|
    ensures |r| == |dest|
  {
    Accum(dest, Zeros(|op1|) + op1, Val(op2), MaxBit(Val(op2)) + 1)
  }

  // ----- what defeats the carry test

  /** 32 consecutive one bits of `v` from bit `s` on, with a one bit somewhere below. */
  predicate BadAt(v: nat, s: nat) { Shr(v, s) % 0x1_0000_0000 == ONES && Low(v, s) != 0 }

  ghost predicate Bad(v: nat) { exists s: nat :: BadAt(v, s) }

  /** A number with no 32 consecutive one bits is not bad. */
  lemma NoRunNotBad(v: nat)
    requires forall s: nat {:trigger BadAt(v, s)} :: Shr(v, s) % 0x1_0000_0000 != ONES
    ensures !Bad(v)
  {
  }

  lemma {:induction false} NoCarryFromZero(a: seq<Word>, b: seq<Word>, i: nat)
    requires |a| == |b| && i <= |a| && Val(b[i..]) == 0
    ensures CarryAt(a, b, i) == 0
    decreases |a| - i
  {
    if i < |a| {
      assert b[i..][1..] == b[i + 1..];
      ValZero(b[i..]);
      ValZero(b[i + 1..]);
      assert b[i..][0] == b[i];
      NoCarryFromZero(a, b, i + 1);
    }
  }

  /** An all-ones word of a shifted `v` above something nonzero is a bad place of `v`. */
  lemma OnesWordMeansBad(b: seq<Word>, i: nat, v: nat, x: nat)
    requires i < |b| && b[i] == ONES && Val(b[i + 1..]) != 0 && Val(b) == Shl(v, x)
    ensures Bad(v)
  {
    WordOf(b, i);
    OnesAboveMeansBad(v, x, 32 * (|b| - 1 - i));
  }

  lemma OnesAboveMeansBad(v: nat, x: nat, k: nat)
    requires Shr(Shl(v, x), k) % 0x1_0000_0000 == ONES && Low(Shl(v, x), k) != 0
    ensures Bad(v)
  {
    if k < x {
      ShlLow(v, x, k);
    } else {
      ShrShl(v, x, k - x);
      ShlZero(Low(v, k - x), x);
      assert BadAt(v, k - x);
    }
  }

  /** A carry lost to an addend that is a shifted `v` shows a bad place in `v`. */
  lemma LostMeansBad(a: seq<Word>, b: seq<Word>, i: nat, v: nat, x: nat)
    requires |a| == |b| && i < |a| && LostCarry(a, b, i) && Val(b) == Shl(v, x)
    ensures Bad(v)
  {
    if Val(b[i + 1..]) == 0 { NoCarryFromZero(a, b, i + 1); }
    OnesWordMeansBad(b, i, v, x);
  }

  // ----- sufficiency

  /** Adding a shifted good number is exact, but for the carry out of the top word. */
  lemma AddShifted(a: seq<Word>, b: seq<Word>, v: nat, x: nat) returns (top: nat)
    requires |a| == |b| > 0 && Val(b) == Shl(v, x) && !Bad(v)
    ensures Val(AddWords(a, b)) + Scale(top, |a|) == Val(a) + Val(b)
  {
    forall i | 1 <= i < |a| ensures !LostCarry(a, b, i) {
      if LostCarry(a, b, i) { LostMeansBad(a, b, i, v, x); }
    }
    LostSumBound(a, b, 1);
    top := AddTotal(a, b);
  }

  /** A carry out of the top word is at least the width. */
  lemma SmallTop(top: nat, n: nat)
    ensures if top == 0 then Scale(top, n) == 0 else Scale(top, n) >= Pw(n)
  {
    ScaleOne(n);
    if top > 0 { ShlMonotone(1, top, 32 * n); }
  }

  lemma {:induction false} DoubledExact(t: seq<Word>, v: nat, x: nat)
    requires |t| > 0 && Val(t) == v && !Bad(v) && Shl(v, x) < Pw(|t|)
    ensures Val(Doubled(t, x)) == Shl(v, x)
  {
    if x > 0 {
      var u := Doubled(t, x - 1);
      DoubledExact(t, v, x - 1);
      var top := AddShifted(u, u, v, x - 1);
      SmallTop(top, |t|);
    }
  }

  /** One more bit of the multiplier. */
  lemma BitProduct(v: nat, w: nat, x: nat)
    ensures v * Low(w, x + 1) == v * Low(w, x) + if Bit(w, x) == 1 then Shl(v, x) else 0
  {
    LowStep(w, x);
    ShlPow2(v, x);
    ShlOneZero(x);
    MulAdd(Low(w, x), Shl(Bit(w, x), x), v);
  }

  lemma AddDoubled(d: seq<Word>, t: seq<Word>, v: nat, x: nat) returns (top: nat)
    requires |d| == |t| > 0 && Val(t) == v && !Bad(v) && Shl(v, x) < Pw(|t|)
    ensures Val(AddWords(d, Doubled(t, x))) + Scale(top, |t|) == Val(d) + Shl(v, x)
  {
    DoubledExact(t, v, x);
    top := AddShifted(d, Doubled(t, x), v, x);
  }

  /** The destination is short of the sum by the carries out of its top word only. */
  lemma {:induction false} AccumExact(dest: seq<Word>, t: seq<Word>, v: nat, w: nat, x: nat) returns (tops: nat)
    requires |dest| == |t| > 0 && Val(t) == v && !Bad(v) && (x > 0 ==> Shl(v, x - 1) < Pw(|t|))
    ensures Val(Accum(dest, t, w, x)) + Scale(tops, |t|) == Val(dest) + v * Low(w, x)
  {
    tops := 0;
    ScaleOne(|t|);
    if x > 0 {
      tops := AccumExact(dest, t, v, w, x - 1);
      BitProduct(v, w, x - 1);
      var d := Accum(dest, t, w, x - 1);
      if Bit(w, x - 1) == 1 {
        var top := AddDoubled(d, t, v, x - 1);
        ShlAdd(tops, top, 32 * |t|);
        tops := tops + top;
      }
    }
  }

  lemma PaddedVal(op: seq<Word>)
    ensures Val(Zeros(|op|) + op) == Val(op)
  {
    ValConcat(Zeros(|op|), op);
    ValZero(Zeros(|op|));
    ScaleOne(|op|);
  }

  lemma MulLt(v: nat, a: nat, w: nat, b: nat)
    requires v < a && w <= b && b > 0
    ensures v * w < a * b
  {
    MulLe(w, b, v);
    MulLe(v + 1, a, b);
    MulAdd(v, 1, b);
  }

  /** All shifts the loop makes fit in twice the width. */
  lemma ShiftFits(v: nat, n: nat, x: nat)
    requires v < Pw(n) && x <= 32 * n
    ensures Shl(v, x) < Pw(2 * n)
  {
    ShlPlusFits(v, x, 0, 32 * n);
    Pow2Monotone(x + 32 * n, 64 * n);
  }

  lemma BitsOfWidth(w: nat, n: nat)
    requires w < Pw(n) && n > 0
    ensures MaxBit(w) < 32 * n && Low(w, MaxBit(w) + 1) == w
  {
    if w > 0 {
      MaxBitBounds(w);
      if MaxBit(w) >= 32 * n { Pow2Monotone(32 * n, MaxBit(w)); }
      ShlOneZero(MaxBit(w) + 1);
      ShrLowUnique(w, MaxBit(w) + 1, 0, w);
    }
  }

  lemma MultTotal(dest: seq<Word>, op1: seq<Word>, op2: seq<Word>) returns (tops: nat)
    requires |dest| == 2 * |op1| && |op1| == |op2| > 0 && !Bad(Val(op1))
    ensures Val(MultWords(dest, op1, op2)) + Scale(tops, |dest|) == Val(dest) + Val(op1) * Val(op2)
  {
    var v, w, n := Val(op1), Val(op2), |op1|;
    ValBound(op1);
    ValBound(op2);
    PaddedVal(op1);
    BitsOfWidth(w, n);
    ShiftFits(v, n, MaxBit(w));
    tops := AccumExact(dest, Zeros(n) + op1, v, w, MaxBit(w) + 1);
  }

  /** For a good multiplicand the double-width result is dest + op1 * op2, modulo its width,
      whatever the destination held. */
  lemma MultExact(dest: seq<Word>, op1: seq<Word>, op2: seq<Word>)
    requires |dest| == 2 * |op1| && |op1| == |op2| > 0 && !Bad(Val(op1))
    ensures Val(MultWords(dest, op1, op2)) == (Val(dest) + Val(op1) * Val(op2)) % Pw(|dest|)
  {
    var tops := MultTotal(dest, op1, op2);
    ValBound(MultWords(dest, op1, op2));
    ShlPow2(tops, 32 * |dest|);
    DivModUnique(Val(dest) + Val(op1) * Val(op2), Pw(|dest|), tops, Val(MultWords(dest, op1, op2)));
  }

  /** With a cleared destination it is exactly the product. */
  lemma MultIntoZero(op1: seq<Word>, op2: seq<Word>)
    requires |op1| == |op2| > 0 && !Bad(Val(op1))
    ensures Val(MultWords(Zeros(2 * |op1|), op1, op2)) == Val(op1) * Val(op2)
  {
    var n := |op1|;
    var tops := MultTotal(Zeros(2 * n), op1, op2);
    ValZero(Zeros(2 * n));
    ValBound(op1);
    ValBound(op2);
    ProductFits(Val(op1), Val(op2), n);
    SmallTop(tops, 2 * n);
  }

  lemma ProductFits(v: nat, w: nat, n: nat)
    requires v < Pw(n) && w < Pw(n)
    ensures v * w < Pw(2 * n)
  {
    ShlPow2(Pw(n), 32 * n);
    ShlOneZero(32 * n);
    ShlShl(1, 32 * n, 32 * n);
    ShlOneZero(64 * n);
    MulLt(v, Pw(n), w, Pw(n));
  }

  // ----- necessity

  /** The destination plus a product, modulo its width. */
  function Expected(dest: seq<Word>, product: nat): nat { (Val(dest) + product) % Pw(|dest|) }

  /** The row with all words zero but the last. */
  function Single(n: nat, x: Word): (r: seq<Word>)
    requires n > 0
    ensures |r| == n
  {
    Zeros(n - 1) + [x]
  }

  lemma SingleVal(n: nat, x: Word)
    requires n > 0
    ensures Val(Single(n, x)) == x
  {
    ValConcat(Zeros(n - 1), [x]);
    ValZero(Zeros(n - 1));
    ScaleOne(1);
    assert [x][1..] == [];
  }

  lemma {:induction false} PowerBits(x: nat, k: nat)
    ensures Bit(Pow2(x), k) == (if k == x then 1 else 0) && MaxBit(Pow2(x)) == x
  {
    if x > 0 {
      if k > 0 { PowerBits(x - 1, k - 1); } else { PowerBits(x - 1, 0); }
    } else if k > 0 {
      ZeroBits(k - 1);
    }
  }

  lemma {:induction false} ZeroBits(k: nat)
    ensures Shr(0, k) == 0
  {
    if k > 0 { ZeroBits(k - 1); }
  }

  lemma {:induction false} AccumPowerBelow(dest: seq<Word>, t: seq<Word>, x: nat, y: nat)
    requires |dest| == |t| && y <= x
    ensures Accum(dest, t, Pow2(x), y) == dest
  {
    if y > 0 {
      PowerBits(x, y - 1);
      AccumPowerBelow(dest, t, x, y - 1);
    }
  }

  /** With a power of two as multiplier the only addition is the last one. */
  lemma MultByPower(dest: seq<Word>, op1: seq<Word>, x: nat)
    requires |dest| == 2 * |op1| && |op1| > 0 && x < 32
    ensures Pow2(x) < 0x1_0000_0000
    ensures MultWords(dest, op1, Single(|op1|, Pow2(x))) == AddWords(dest, Doubled(Zeros(|op1|) + op1, x))
  {
    Pow2_32();
    Pow2Monotone(x, 32);
    SingleVal(|op1|, Pow2(x));
    PowerBits(x, x);
    AccumPowerBelow(dest, Zeros(|op1|) + op1, x, x);
  }

  lemma AddZeros(z: seq<Word>, t: seq<Word>)
    requires |t| == |z| > 0 && Val(z) == 0
    ensures Val(AddWords(z, t)) == Val(t)
  {
    ValZero(z);
    LostSumBound(z, t, 1);
    var top := AddTotal(z, t);
    ValBound(t);
    SmallTop(top, |t|);
  }

  function Ones(n: nat): (r: seq<Word>)
    ensures |r| == n
  {
    seq(n, _ => ONES)
  }

  lemma {:induction false} OnesVal(n: nat)
    ensures Val(Ones(n)) == Pw(n) - 1
  {
    if n > 0 {
      OnesVal(n - 1);
      assert Ones(n)[1..] == Ones(n - 1);
      ShlAdd(ONES, 1, 32 * (n - 1));
      ScaleBase(1, n - 1);
      ScaleOne(n - 1);
      ScaleOne(n);
    }
  }

  /** Ones meeting something nonzero carry out, unless a carry is lost on the way. */
  lemma OnesCarry(d: seq<Word>, t: seq<Word>, i: nat)
    requires |d| == |t| && i <= |t| && Val(t[i..]) != 0 && Val(d[i..]) == Pw(|t| - i) - 1 && LostSum(d, t, i) == 0
    ensures CarryAt(d, t, i) == 1
  {
    AddSuffix(d, t, i);
    ValBound(AddWords(d, t)[i..]);
    ScaleOne(|t| - i);
  }

  /** An all-ones word of `t` with something below it, met by ones from there on down. */
  lemma OnesLoseCarry(d: seq<Word>, t: seq<Word>, i: nat)
    requires |d| == |t| && 1 <= i < |t| && t[i] == ONES && Val(t[i + 1..]) != 0 && d[i..] == Ones(|t| - i)
    ensures Val(AddWords(d, t)) != Expected(d, Val(t))
  {
    LostSumBound(d, t, i + 1);
    if LostSum(d, t, i + 1) == 0 {
      assert d[i + 1..] == d[i..][1..] == Ones(|t| - (i + 1));
      OnesVal(|t| - (i + 1));
      OnesCarry(d, t, i + 1);
      assert d[i] == d[i..][0];
      assert LostCarry(d, t, i);
    }
    AddExactIff(d, t);
  }

  lemma RunFits(v: nat, n: nat, s: nat)
    requires v < Pw(n) && Shr(v, s) % 0x1_0000_0000 == ONES
    ensures s + 32 <= 32 * n
  {
    var u := Shr(v, s);
    ShrLow(v, s);
    Pow2_32();
    assert Pow2(32) == 2 * Pow2(31);
    ShlAtLeast(u, s, 31);
    assert Pow2(31 + s) <= v < Pow2(32 * n);
    Pow2Order(31 + s, 32 * n);
  }

  /** With a power of two as multiplier, the product is right when the last addition is. */
  lemma WrongPower(op1: seq<Word>, dest: seq<Word>, x: nat)
    requires |dest| == 2 * |op1| && |op1| > 0 && x < 32
    requires Val(AddWords(dest, Doubled(Zeros(|op1|) + op1, x))) != Expected(dest, Shl(Val(op1), x))
    ensures Pow2(x) < 0x1_0000_0000 && !CorrectFor(op1, dest, Single(|op1|, Pow2(x)))
  {
    MultByPower(dest, op1, x);
    PowerProduct(op1, x);
  }

  lemma PowerProduct(op1: seq<Word>, x: nat)
    requires |op1| > 0 && Pow2(x) < 0x1_0000_0000
    ensures Val(op1) * Val(Single(|op1|, Pow2(x))) == Shl(Val(op1), x)
  {
    SingleVal(|op1|, Pow2(x));
    ShlPow2(Val(op1), x);
  }

  /** When a doubling goes wrong, a cleared destination shows it. */
  lemma WrongDoubling(op1: seq<Word>, x: nat)
    requires |op1| > 0 && x < 32 && Val(Doubled(Zeros(|op1|) + op1, x)) != Shl(Val(op1), x)
    ensures Pow2(x) < 0x1_0000_0000 && !CorrectFor(op1, Zeros(2 * |op1|), Single(|op1|, Pow2(x)))
  {
    var n, z := |op1|, Zeros(2 * |op1|);
    ValZero(z);
    AddZeros(z, Doubled(Zeros(n) + op1, x));
    ValBound(op1);
    ShiftFits(Val(op1), n, x);
    ExpectedFromZero(z, Shl(Val(op1), x));
    WrongPower(op1, z, x);
  }

  lemma ExpectedFromZero(z: seq<Word>, p: nat)
    requires Val(z) == 0 && p < Pw(|z|)
    ensures Expected(z, p) == p
  {
    DivModUnique(p, Pw(|z|), 0, p);
  }

  /** Where a bad place of `v` ends up once it is shifted onto a word. */
  lemma BadWord(t: seq<Word>, v: nat, s: nat, x: nat, j: nat)
    requires |t| > j && BadAt(v, s) && x + s == 32 * j && Val(t) == Shl(v, x)
    ensures t[|t| - 1 - j] == ONES && Val(t[|t| - j..]) != 0
  {
    WordOf(t, |t| - 1 - j);
    ShrShl(v, x, s);
    ShlZero(Low(v, s), x);
  }

  /** When the doublings are right, a destination of ones makes the addition go wrong. */
  lemma WrongSum(op1: seq<Word>, s: nat, x: nat, j: nat)
    requires |op1| > j && BadAt(Val(op1), s) && x < 32 && x + s == 32 * j
    requires Val(Doubled(Zeros(|op1|) + op1, x)) == Shl(Val(op1), x)
    ensures var dest := Zeros(2 * |op1| - 1 - j) + Ones(j + 1);
      Val(AddWords(dest, Doubled(Zeros(|op1|) + op1, x))) != Expected(dest, Shl(Val(op1), x))
  {
    OnesDefeat(Doubled(Zeros(|op1|) + op1, x), Val(op1), s, x, 2 * |op1| - 1 - j, j);
  }

  /** Ones from the bad word down make the addition of a shifted bad number lose a carry. */
  lemma OnesDefeat(t: seq<Word>, v: nat, s: nat, x: nat, i: nat, j: nat)
    requires |t| == i + j + 1 && i > 0 && BadAt(v, s) && x + s == 32 * j && Val(t) == Shl(v, x)
    ensures Val(AddWords(Zeros(i) + Ones(j + 1), t)) != Expected(Zeros(i) + Ones(j + 1), Shl(v, x))
  {
    BadWord(t, v, s, x, j);
    OnesTail(i, j + 1);
    OnesLoseCarry(Zeros(i) + Ones(j + 1), t, i);
  }

  lemma OnesTail(i: nat, k: nat)
    ensures (Zeros(i) + Ones(k))[i..] == Ones(k)
  {
  }

  /** The shift that puts bit `s` at the foot of a word. */
  lemma WordShift(v: nat, n: nat, s: nat) returns (x: nat, j: nat)
    requires v < Pw(n) && Shr(v, s) % 0x1_0000_0000 == ONES
    ensures x < 32 && x + s == 32 * j && j < n
  {
    RunFits(v, n, s);
    x := (32 - s % 32) % 32;
    j := (s + x) / 32;
  }

  /** A bad multiplicand is multiplied wrongly for some multiplier and destination. */
  lemma MultWrong(op1: seq<Word>, s: nat) returns (dest: seq<Word>, op2: seq<Word>)
    requires |op1| > 0 && BadAt(Val(op1), s)
    ensures |dest| == 2 * |op1| && |op2| == |op1| && !CorrectFor(op1, dest, op2)
  {
    ValBound(op1);
    var x, j := WordShift(Val(op1), |op1|, s);
    dest := Zeros(2 * |op1|);
    if Val(Doubled(Zeros(|op1|) + op1, x)) != Shl(Val(op1), x) {
      WrongDoubling(op1, x);
    } else {
      WrongSum(op1, s, x, j);
      dest := Zeros(2 * |op1| - 1 - j) + Ones(j + 1);
      WrongPower(op1, dest, x);
    }
    op2 := Single(|op1|, Pow2(x));
  }

  ghost predicate CorrectFor(op1: seq<Word>, dest: seq<Word>, op2: seq<Word>)
    requires |dest| == 2 * |op1| && |op2| == |op1|
  {
    Val(MultWords(dest, op1, op2)) == Expected(dest, Val(op1) * Val(op2))
  }

  /** TEE_BigIntMult is correct for every multiplier and every destination if and only if the
      multiplicand has no 32 consecutive one bits above some lower one bit. */
  lemma MultCorrectIff(op1: seq<Word>)
    requires |op1| > 0
    ensures !Bad(Val(op1)) <==>
              forall dest, op2 :: |dest| == 2 * |op1| && |op2| == |op1| ==> CorrectFor(op1, dest, op2)
  {
    if Bad(Val(op1)) {
      var s: nat :| BadAt(Val(op1), s);
      var dest, op2 := MultWrong(op1, s);
    } else {
      forall dest, op2 | |dest| == 2 * |op1| && |op2| == |op1| ensures CorrectFor(op1, dest, op2) {
        MultExact(dest, op1, op2);
      }
    }
  }

  // ----- the loops

  method Mult(dest: array<Word>, op1: array<Word>, op2: array<Word>)
    requires dest.Length == 2 * op1.Length && op1.Length == op2.Length > 0
    modifies dest
    ensures dest[..] == MultWords(old(dest[..]), op1[..], op2[..])
  {
    var n := op1.Length;
    ghost var d, w := dest[..], Val(op2[..]);
    ghost var t := Zeros(n) + op1[..];
    var temp := new Word[2 * n](_ => 0);
    var maxBit := MaxBitPos(op2);
    ValBound(op2[..]);
    BitsOfWidth(w, n);
    CopyInto(temp, op1);
    var x := 0;
    while x <= maxBit
      invariant x <= maxBit + 1 && fresh(temp) && temp.Length == 2 * n
      invariant temp[..] == Doubled(t, if x == 0 then 0 else x - 1)
      invariant dest[..] == Accum(d, t, w, x)
    {
      if x > 0 {
        Add(temp, temp, temp);
      }
      var bit := GetBit(op2, x);
      if bit == 1 {
        Add(dest, dest, temp);
      }
      x := x + 1;
    }
  }

  /** The move of the multiplicand into the lower half of the temporary. */
  method CopyInto(temp: array<Word>, op1: array<Word>)
    requires temp.Length == 2 * op1.Length && temp != op1
    requires forall i :: 0 <= i < op1.Length ==> temp[i] == 0
    modifies temp
    ensures temp[..] == Zeros(op1.Length) + op1[..]
  {
    var i := 0;
    while i < op1.Length
      invariant 0 <= i <= op1.Length
      invariant forall k :: 0 <= k < op1.Length ==> temp[k] == 0
      invariant forall k :: 0 <= k < i ==> temp[op1.Length + k] == op1[k]
    {
      temp[op1.Length + i] := op1[i];
      i := i + 1;
    }
  }

  method Square(dest: array<Word>, src: array<Word>)
    requires dest.Length == 2 * src.Length && src.Length > 0
    modifies dest
    ensures dest[..] == MultWords(old(dest[..]), src[..], src[..])
  {
    Mult(dest, src, src);
  }
}
