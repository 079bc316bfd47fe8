/** Rows of identifiers. */
module Seqs {
  predicate NoRepeats(q: seq<nat>) { forall i, j :: 0 <= i < j < |q| ==> q[i] != q[j] }

  /** The row without the first `e`. */
  function Without(q: seq<nat>, e: nat): (r: seq<nat>) {
    if |q| == 0 then [] else if q[0] == e then q[1..] else [q[0]] + Without(q[1..], e)
  }

  lemma {:induction false} WithoutIs(q: seq<nat>, e: nat) returns (i: nat)
    requires e in q
    ensures i < |q| && q[i] == e && Without(q, e) == q[..i] + q[i + 1..]
  {
    i := 0;
    if q[0] != e {
      i := WithoutIs(q[1..], e);
      assert q[1..][i + 1..] == q[i + 2..];
      i := i + 1;
      assert [q[0]] + q[1..][..i - 1] == q[..i];
    }
  }

  /** What is left keeps its order. */
  lemma WithoutOrder(q: seq<nat>, e: nat, j: nat, k: nat) returns (j': nat, k': nat)
    requires j < k < |Without(q, e)|
    ensures j' < k' < |q| && Without(q, e)[j] == q[j'] && Without(q, e)[k] == q[k']
  {
    j', k' := j, k;
    if e in q {
      var i := WithoutIs(q, e);
      j', k' := if j < i then j else j + 1, if k < i then k else k + 1;
    } else {
      WithoutAbsent(q, e);
    }
  }

  lemma {:induction false} WithoutAbsent(q: seq<nat>, e: nat)
    requires e !in q
    ensures Without(q, e) == q
  {
    if |q| > 0 { WithoutAbsent(q[1..], e); }
  }

  /** A member that stays moves at most one place forward. */
  lemma WithoutPlace(q: seq<nat>, e: nat, k: nat) returns (j: nat)
    requires k < |q| && q[k] != e
    ensures j <= k && j < |Without(q, e)| && Without(q, e)[j] == q[k]
  {
    j := k;
    if e in q {
      var i := WithoutIs(q, e);
      j := if k < i then k else k - 1;
    } else {
      WithoutAbsent(q, e);
    }
  }

  lemma WithoutKeeps(q: seq<nat>, e: nat)
    requires NoRepeats(q)
    ensures NoRepeats(Without(q, e)) && forall x :: x in Without(q, e) <==> x in q && x != e
  {
    if e in q {
      var i := WithoutIs(q, e);
      var r := Without(q, e);
      assert forall j :: 0 <= j < |r| ==> r[j] == q[if j < i then j else j + 1];
      forall x | x in q && x != e ensures x in r {
        var j :| 0 <= j < |q| && q[j] == x;
        assert r[if j < i then j else j - 1] == x;
      }
    } else {
      WithoutAbsent(q, e);
    }
  }

  lemma AppendNoRepeats(q: seq<nat>, e: nat)
    requires NoRepeats(q) && e !in q
    ensures NoRepeats(q + [e])
  {
  }

  lemma Split(q: seq<nat>)
    requires q != []
    ensures forall x :: x in q <==> x == q[0] || x in q[1..]
    ensures NoRepeats(q) ==> NoRepeats(q[1..]) && q[0] !in q[1..]
  {
    assert q == [q[0]] + q[1..];
  }

  /** The search and removal the lists' users perform. */
  method Delete(q: seq<nat>, x: nat) returns (r: seq<nat>)
    ensures r == Without(q, x)
  {
    var i := 0;
    assert q[0..] == q;
    while i < |q| && q[i] != x
      invariant i <= |q| && Without(q, x) == q[..i] + Without(q[i..], x)
    {
      assert q[i..][1..] == q[i + 1..] && q[..i] + [q[i]] == q[..i + 1];
      i := i + 1;
    }
    if i < |q| {
      assert q[i..][1..] == q[i + 1..];
      r := q[..i] + q[i + 1..];
    } else {
      r := q;
    }
  }
}
