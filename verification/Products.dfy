/** Products by repeated addition, which keeps the proofs about them linear. */
module Products {
  /** i * n */
  function Times(i: nat, n: nat): nat { if i == 0 then 0 else Times(i - 1, n) + n }

  lemma {:induction false} TimesIs(i: nat, n: nat)
    ensures Times(i, n) == i * n
  {
    if i > 0 {
      TimesIs(i - 1, n);
      assert i * n == (i - 1) * n + n;
    }
  }

  lemma {:induction false} TimesOrder(i: nat, j: nat, n: nat)
    requires i < j
    ensures Times(i, n) + n <= Times(j, n)
  {
    if i < j - 1 { TimesOrder(i, j - 1, n); }
  }

  lemma {:induction false} TimesAdd(i: nat, j: nat, n: nat)
    ensures Times(i + j, n) == Times(i, n) + Times(j, n)
  {
    if j > 0 { TimesAdd(i, j - 1, n); }
  }

  // ----- quotients and remainders

  lemma MulLe(a: int, b: int, m: int)
    requires a <= b && m >= 0
    ensures a * m <= b * m
  {
  }

  lemma MulAdd(a: int, b: int, m: int)
    ensures (a + b) * m == a * m + b * m
  {
  }

  lemma DivModUnique(v: int, m: int, q: int, r: int)
    requires m > 0 && v == q * m + r && 0 <= r < m
    ensures v / m == q && v % m == r
  {
    var d := v / m - q;
    assert v == (v / m) * m + v % m;
    assert d * m == r - v % m;
    if d >= 1 { MulLe(1, d, m); }
    if d <= -1 { MulLe(d, -1, m); }
  }

  /** Adding a multiple of the modulus changes nothing. */
  lemma ModAddMultiple(v: int, m: int, k: int)
    requires m > 0
    ensures (v + k * m) % m == v % m
  {
    assert v + k * m == (v / m + k) * m + v % m;
    DivModUnique(v + k * m, m, v / m + k, v % m);
  }

  /** A place within a row of blocks of `n`. */
  lemma TimesMod(i: nat, off: nat, n: nat)
    requires off < n
    ensures (Times(i, n) + off) % n == off
  {
    TimesIs(i, n);
    DivModUnique(Times(i, n) + off, n, i, off);
  }
}
