/** TEE_BigIntAdd, TEE_BigIntAddMult, TEE_BigIntSub and incrementBigInt: sums of words with the
    carry detected by comparison, and exactly when that comparison misses a carry. */
module BigAdd {
  import opened Products
  import opened BigNat

  /** One more word on two rows of digits and their sum. */
  lemma SuffixStep(x: nat, y: nat, cin: nat, s: nat, out: nat, k: nat, rv: nat, av: nat, bv: nat, lv: nat)
    requires x + y + cin == s + 0x1_0000_0000 * out && rv + Scale(cin, k) + lv == av + bv
    ensures Scale(s, k) + rv + Scale(out, k + 1) + lv == Scale(x, k) + av + Scale(y, k) + bv
  {
    ShlAdd(x, y, 32 * k);
    ShlAdd(x + y, cin, 32 * k);
    ShlAdd(s, 0x1_0000_0000 * out, 32 * k);
    ScaleBase(out, k);
  }

  // ----- addition

  /** The carry out of word `i`, as the source computes it. */
  function CarryAt(a: seq<Word>, b: seq<Word>, i: nat): (c: nat)
    requires |a| == |b| && i <= |a|
    ensures c <= 1
    decreases |a| - i
  {
    if i == |a| then 0
    else
      var sum := AddWord(a, b, i);
      if sum < a[i] || sum < b[i] then 1 else 0
  }

  function AddWord(a: seq<Word>, b: seq<Word>, i: nat): Word
    requires |a| == |b| && i < |a|
    decreases |a| - i, 0
  {
    (a[i] + b[i] + CarryAt(a, b, i + 1)) % 0x1_0000_0000
  }

  function AddWords(a: seq<Word>, b: seq<Word>): (r: seq<Word>)
    requires |a| == |b|
    ensures |r| == |a|
  {
    seq(|a|, i requires 0 <= i < |a| => AddWord(a, b, i))
  }

  /** Both words all ones with a carry in: the sum is all ones again, no smaller than either. */
  predicate LostCarry(a: seq<Word>, b: seq<Word>, i: nat)
    requires |a| == |b| && i < |a|
  {
    a[i] == ONES && b[i] == ONES && CarryAt(a, b, i + 1) == 1
  }

  /** The powers of the base that the carries lost at words `i` and up amount to. */
  function LostSum(a: seq<Word>, b: seq<Word>, i: nat): nat
    requires |a| == |b| && i <= |a|
    decreases |a| - i
  {
    if i == |a| then 0 else (if LostCarry(a, b, i) then Pw(|a| - i) else 0) + LostSum(a, b, i + 1)
  }

  /** One word: what the comparison sees plus what it misses is the true carry. */
  lemma AddWordCarry(a: seq<Word>, b: seq<Word>, i: nat)
    requires |a| == |b| && i < |a|
    ensures a[i] + b[i] + CarryAt(a, b, i + 1)
         == AddWord(a, b, i) + 0x1_0000_0000 * (CarryAt(a, b, i) + if LostCarry(a, b, i) then 1 else 0)
  {
  }

  lemma {:induction false} AddSuffix(a: seq<Word>, b: seq<Word>, i: nat)
    requires |a| == |b| && i <= |a|
    ensures Val(AddWords(a, b)[i..]) + Scale(CarryAt(a, b, i), |a| - i) + LostSum(a, b, i) == Val(a[i..]) + Val(b[i..])
    decreases |a| - i
  {
    if i < |a| {
      AddSuffix(a, b, i + 1);
      AddWordCarry(a, b, i);
      var r := AddWords(a, b);
      assert r[i..][1..] == r[i + 1..] && a[i..][1..] == a[i + 1..] && b[i..][1..] == b[i + 1..];
      var k := |a| - i - 1;
      var lost := if LostCarry(a, b, i) then 1 else 0;
      SuffixStep(a[i], b[i], CarryAt(a, b, i + 1), r[i], CarryAt(a, b, i) + lost, k,
                 Val(r[i + 1..]), Val(a[i + 1..]), Val(b[i + 1..]), LostSum(a, b, i + 1));
      ShlAdd(CarryAt(a, b, i), lost, 32 * (k + 1));
      ScaleOne(k + 1);
    }
  }

  lemma {:induction false} LostSumBound(a: seq<Word>, b: seq<Word>, i: nat)
    requires |a| == |b| && i <= |a|
    ensures LostSum(a, b, i) < Pw(|a| - i + 1)
    ensures LostSum(a, b, i) == 0 <==> forall j :: i <= j < |a| ==> !LostCarry(a, b, j)
    decreases |a| - i
  {
    PwStep(|a| - i);
    if i < |a| { LostSumBound(a, b, i + 1); }
  }

  /** A number that falls short of a total by `lost`, up to the modulus, is the total modulo it if
      and only if nothing is lost. */
  lemma ShortfallIff(r: nat, lost: nat, m: nat, top: int, total: int)
    requires r < m && lost < m && r + top * m + lost == total
    ensures r == total % m <==> lost == 0
  {
    if r + lost < m {
      DivModUnique(total, m, top, r + lost);
    } else {
      MulAdd(top, 1, m);
      DivModUnique(total, m, top + 1, r + lost - m);
    }
  }

  /** The sum modulo the width, short of one power of the base for each carry lost below the top
      word. */
  lemma AddShortBy(a: seq<Word>, b: seq<Word>)
    requires |a| == |b| > 0
    ensures (Val(AddWords(a, b)) + LostSum(a, b, 1)) % Pw(|a|) == (Val(a) + Val(b)) % Pw(|a|)
  {
    var top := AddTotal(a, b);
    ModScale(Val(AddWords(a, b)), LostSum(a, b, 1), top, |a|, Val(a) + Val(b));
  }

  /** The sum is exact if and only if no word below the top one has both operand words all ones
      with a carry in. */
  lemma AddExactIff(a: seq<Word>, b: seq<Word>)
    requires |a| == |b| > 0
    ensures Val(AddWords(a, b)) == (Val(a) + Val(b)) % Pw(|a|) <==> forall i :: 1 <= i < |a| ==> !LostCarry(a, b, i)
  {
    LostSumBound(a, b, 1);
    ValBound(AddWords(a, b));
    var top := AddTotal(a, b);
    ShlPow2(top, 32 * |a|);
    ShortfallIff(Val(AddWords(a, b)), LostSum(a, b, 1), Pw(|a|), top, Val(a) + Val(b));
  }

  lemma AddTotal(a: seq<Word>, b: seq<Word>) returns (top: nat)
    requires |a| == |b| > 0
    ensures Val(AddWords(a, b)) + Scale(top, |a|) + LostSum(a, b, 1) == Val(a) + Val(b)
  {
    AddSuffix(a, b, 0);
    assert AddWords(a, b)[0..] == AddWords(a, b) && a[0..] == a && b[0..] == b;
    var lost := if LostCarry(a, b, 0) then 1 else 0;
    top := CarryAt(a, b, 0) + lost;
    ShlAdd(CarryAt(a, b, 0), lost, 32 * |a|);
    ScaleOne(|a|);
  }

  /** TEE_BigIntAdd, and with arrays of twice the length TEE_BigIntAddMult.  The destination may
      be one of the operands. */
  method Add(dest: array<Word>, op1: array<Word>, op2: array<Word>)
    requires dest.Length == op1.Length == op2.Length
    modifies dest
    ensures dest[..] == AddWords(old(op1[..]), old(op2[..]))
  {
    ghost var a, b := op1[..], op2[..];
    var carry: nat := 0;
    var i := dest.Length - 1;
    while i >= 0
      invariant -1 <= i < dest.Length && carry == CarryAt(a, b, i + 1)
      invariant forall k :: 0 <= k <= i ==> op1[k] == a[k] && op2[k] == b[k]
      invariant forall k :: i < k < dest.Length ==> dest[k] == AddWord(a, b, k)
    {
      var sum: Word := (op1[i] + op2[i] + carry) % 0x1_0000_0000;
      carry := if sum < op1[i] || sum < op2[i] then 1 else 0;
      dest[i] := sum;
      i := i - 1;
    }
  }

  // ----- subtraction

  /** The borrow out of word `i`, as the source computes it. */
  function BorrowAt(a: seq<Word>, b: seq<Word>, i: nat): (c: nat)
    requires |a| == |b| && i <= |a|
    ensures c <= 1
    decreases |a| - i
  {
    if i == |a| then 0 else if SubWord(a, b, i) > a[i] then 1 else 0
  }

  function SubWord(a: seq<Word>, b: seq<Word>, i: nat): Word
    requires |a| == |b| && i < |a|
    decreases |a| - i, 0
  {
    (a[i] - BorrowAt(a, b, i + 1) - b[i]) % 0x1_0000_0000
  }

  function SubWords(a: seq<Word>, b: seq<Word>): (r: seq<Word>)
    requires |a| == |b|
    ensures |r| == |a|
  {
    seq(|a|, i requires 0 <= i < |a| => SubWord(a, b, i))
  }

  /** Subtracting all ones and a borrow leaves the word as it was, not larger. */
  predicate LostBorrow(a: seq<Word>, b: seq<Word>, i: nat)
    requires |a| == |b| && i < |a|
  {
    b[i] == ONES && BorrowAt(a, b, i + 1) == 1
  }

  function LostBorrowSum(a: seq<Word>, b: seq<Word>, i: nat): nat
    requires |a| == |b| && i <= |a|
    decreases |a| - i
  {
    if i == |a| then 0 else (if LostBorrow(a, b, i) then Pw(|a| - i) else 0) + LostBorrowSum(a, b, i + 1)
  }

  lemma SubWordBorrow(a: seq<Word>, b: seq<Word>, i: nat)
    requires |a| == |b| && i < |a|
    ensures a[i] + 0x1_0000_0000 * (BorrowAt(a, b, i) + if LostBorrow(a, b, i) then 1 else 0)
         == SubWord(a, b, i) + b[i] + BorrowAt(a, b, i + 1)
  {
  }

  lemma {:induction false} SubSuffix(a: seq<Word>, b: seq<Word>, i: nat)
    requires |a| == |b| && i <= |a|
    ensures Val(SubWords(a, b)[i..]) + Val(b[i..])
         == Val(a[i..]) + Scale(BorrowAt(a, b, i), |a| - i) + LostBorrowSum(a, b, i)
    decreases |a| - i
  {
    if i < |a| {
      SubSuffix(a, b, i + 1);
      SubWordBorrow(a, b, i);
      var r := SubWords(a, b);
      assert r[i..][1..] == r[i + 1..] && a[i..][1..] == a[i + 1..] && b[i..][1..] == b[i + 1..];
      var k := |a| - i - 1;
      var lost := if LostBorrow(a, b, i) then 1 else 0;
      SuffixStep(r[i], b[i], BorrowAt(a, b, i + 1), a[i], BorrowAt(a, b, i) + lost, k,
                 Val(a[i + 1..]), Val(r[i + 1..]), Val(b[i + 1..]), LostBorrowSum(a, b, i + 1));
      ShlAdd(BorrowAt(a, b, i), lost, 32 * (k + 1));
      ScaleOne(k + 1);
    }
  }

  lemma {:induction false} LostBorrowSumBound(a: seq<Word>, b: seq<Word>, i: nat)
    requires |a| == |b| && i <= |a|
    ensures LostBorrowSum(a, b, i) < Pw(|a| - i + 1)
    ensures LostBorrowSum(a, b, i) == 0 <==> forall j :: i <= j < |a| ==> !LostBorrow(a, b, j)
    decreases |a| - i
  {
    PwStep(|a| - i);
    if i < |a| { LostBorrowSumBound(a, b, i + 1); }
  }

  /** The difference modulo the width, over by one power of the base for each borrow lost below
      the top word. */
  lemma SubOverBy(a: seq<Word>, b: seq<Word>)
    requires |a| == |b| > 0
    ensures Val(SubWords(a, b)) % Pw(|a|) == (Val(a) - Val(b) + LostBorrowSum(a, b, 1)) % Pw(|a|)
  {
    var top := SubTotal(a, b);
    ModScale(Val(a) - Val(b), LostBorrowSum(a, b, 1), top, |a|, Val(SubWords(a, b)));
  }

  /** The difference is exact if and only if no word below the top one has an all-ones word to
      subtract with a borrow in. */
  lemma SubExactIff(a: seq<Word>, b: seq<Word>)
    requires |a| == |b| > 0
    ensures Val(SubWords(a, b)) == (Val(a) - Val(b)) % Pw(|a|) <==> forall i :: 1 <= i < |a| ==> !LostBorrow(a, b, i)
  {
    LostBorrowSumBound(a, b, 1);
    ValBound(SubWords(a, b));
    var top := SubTotal(a, b);
    ShlPow2(top, 32 * |a|);
    OverIff(Val(SubWords(a, b)), LostBorrowSum(a, b, 1), Pw(|a|), top, Val(a) - Val(b));
  }

  lemma SubTotal(a: seq<Word>, b: seq<Word>) returns (top: nat)
    requires |a| == |b| > 0
    ensures Val(SubWords(a, b)) + Val(b) == Val(a) + Scale(top, |a|) + LostBorrowSum(a, b, 1)
  {
    SubSuffix(a, b, 0);
    assert SubWords(a, b)[0..] == SubWords(a, b) && a[0..] == a && b[0..] == b;
    var lost := if LostBorrow(a, b, 0) then 1 else 0;
    top := BorrowAt(a, b, 0) + lost;
    ShlAdd(BorrowAt(a, b, 0), lost, 32 * |a|);
    ScaleOne(|a|);
  }

  lemma OverIff(r: nat, lost: nat, m: nat, top: int, total: int)
    requires r < m && lost < m && r == total + top * m + lost
    ensures r == total % m <==> lost == 0
  {
    MulAdd(0 - top, top, m);
    if r >= lost {
      DivModUnique(total, m, 0 - top, r - lost);
    } else {
      MulAdd(0 - top, 0 - 1, m);
      DivModUnique(total, m, 0 - top - 1, r - lost + m);
    }
  }

  /** TEE_BigIntSub. */
  method Sub(dest: array<Word>, op1: array<Word>, op2: array<Word>)
    requires dest.Length == op1.Length == op2.Length
    modifies dest
    ensures dest[..] == SubWords(old(op1[..]), old(op2[..]))
  {
    ghost var a, b := op1[..], op2[..];
    var carry: nat := 0;
    var i := dest.Length - 1;
    while i >= 0
      invariant -1 <= i < dest.Length && carry == BorrowAt(a, b, i + 1)
      invariant forall k :: 0 <= k <= i ==> op1[k] == a[k] && op2[k] == b[k]
      invariant forall k :: i < k < dest.Length ==> dest[k] == SubWord(a, b, k)
    {
      var diff: Word := (op1[i] - carry - op2[i]) % 0x1_0000_0000;
      carry := if diff > op1[i] then 1 else 0;
      dest[i] := diff;
      i := i - 1;
    }
  }

  // ----- increment

  /** incrementBigInt adds one modulo the width, for every number. */
  method Increment(dest: array<Word>)
    modifies dest
    ensures Val(dest[..]) == (Val(old(dest[..])) + 1) % Pw(dest.Length)
  {
    ghost var a := dest[..];
    var carry: nat := 1;
    var i := dest.Length - 1;
    assert a[dest.Length..] == [];
    while i >= 0 && carry == 1
      invariant -1 <= i < dest.Length && carry <= 1 && dest[..i + 1] == a[..i + 1]
      invariant Val(dest[i + 1..]) + Scale(carry, dest.Length - i - 1) == Val(a[i + 1..]) + 1
    {
      var sum: Word := (dest[i] + carry) % 0x1_0000_0000;
      carry := if sum < dest[i] then 1 else 0;
      dest[i] := sum;
      IncrementStep(a[i..], dest[i..], carry);
      i := i - 1;
    }
    IncrementEnd(a, dest[..], i + 1, carry);
  }

  lemma IncrementEnd(a: seq<Word>, r: seq<Word>, k: nat, carry: nat)
    requires |a| == |r| && k <= |a| && a[..k] == r[..k] && carry <= 1 && (k == 0 || carry == 0)
    requires Val(r[k..]) + Scale(carry, |a| - k) == Val(a[k..]) + 1
    ensures Val(r) == (Val(a) + 1) % Pw(|a|)
  {
    IncrementValue(a, r, k, carry);
    ShlPow2(carry, 32 * |a|);
    ValBound(r);
    DivModUnique(Val(a) + 1, Pw(|a|), carry, Val(r));
  }

  lemma IncrementValue(a: seq<Word>, r: seq<Word>, k: nat, carry: nat)
    requires |a| == |r| && k <= |a| && a[..k] == r[..k] && carry <= 1 && (k == 0 || carry == 0)
    requires Val(r[k..]) + Scale(carry, |a| - k) == Val(a[k..]) + 1
    ensures Val(r) + Scale(carry, |a|) == Val(a) + 1
  {
    if k == 0 {
      assert a[0..] == a && r[0..] == r;
    } else {
      ValParts(a, k);
      ValParts(r, k);
      ScaleOne(|a|);
      ScaleOne(|a| - k);
    }
  }

  lemma IncrementStep(a: seq<Word>, r: seq<Word>, carry: nat)
    requires |a| == |r| > 0 && Val(r[1..]) + Scale(1, |a| - 1) == Val(a[1..]) + 1
    requires r[0] == (1 + a[0] as int) % 0x1_0000_0000 && carry == if r[0] < a[0] then 1 else 0
    ensures Val(r) + Scale(carry, |a|) == Val(a) + 1
  {
    SuffixStep(a[0], 0, 1, r[0], carry, |a| - 1, Val(r[1..]), Val(a[1..]), 1, 0);
    ScaleOne(|a| - 1);
  }
}
