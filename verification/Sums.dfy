/** Sums of a natural-valued measure over a sequence; the step systems below count threads with them. */
module Sums {

  ghost function Sum<T>(s: seq<T>, f: T -> nat): nat {
    if s == [] then 0 else f(s[0]) + Sum(s[1..], f)
  }

  /** Replacing one element changes the sum by that element's difference. */
  lemma {:induction false} SumUpdate<T>(s: seq<T>, i: nat, v: T, f: T -> nat)
    requires i < |s|
    ensures Sum(s[i := v], f) + f(s[i]) == Sum(s, f) + f(v)
  {
    if i == 0 {
      assert s[i := v][1..] == s[1..];
    } else {
      assert s[i := v][1..] == s[1..][i - 1 := v];
      SumUpdate(s[1..], i - 1, v, f);
    }
  }

  /** Every element is at most the sum. */
  lemma {:induction false} SumAtLeast<T>(s: seq<T>, i: nat, f: T -> nat)
    requires i < |s|
    ensures f(s[i]) <= Sum(s, f)
  {
    if i > 0 {
      SumAtLeast(s[1..], i - 1, f);
    }
  }

  /** Two different elements together are at most the sum. */
  lemma {:induction false} SumAtLeastTwo<T>(s: seq<T>, i: nat, j: nat, f: T -> nat)
    requires i < j < |s|
    ensures f(s[i]) + f(s[j]) <= Sum(s, f)
  {
    if i == 0 {
      SumAtLeast(s[1..], j - 1, f);
    } else {
      SumAtLeastTwo(s[1..], i - 1, j - 1, f);
    }
  }

  /** A sum is zero exactly when every term is. */
  lemma {:induction false} SumZero<T>(s: seq<T>, f: T -> nat)
    ensures Sum(s, f) == 0 <==> forall i | 0 <= i < |s| :: f(s[i]) == 0
  {
    if s != [] {
      SumZero(s[1..], f);
      assert forall i | 0 < i < |s| :: s[i] == s[1..][i - 1];
      assert forall i | 0 <= i < |s[1..]| :: s[1..][i] == s[i + 1];
    }
  }

  /** A positive sum has a positive term. */
  lemma SumWitness<T>(s: seq<T>, f: T -> nat) returns (i: nat)
    requires Sum(s, f) > 0
    ensures i < |s| && f(s[i]) > 0
  {
    SumZero(s, f);
    i :| 0 <= i < |s| && f(s[i]) != 0;
  }

  /** When no term exceeds one and the sum is the length, every term is one. */
  lemma {:induction false} SumFull<T>(s: seq<T>, f: T -> nat)
    requires forall i | 0 <= i < |s| :: f(s[i]) <= 1
    ensures Sum(s, f) <= |s|
    ensures Sum(s, f) == |s| <==> forall i | 0 <= i < |s| :: f(s[i]) == 1
  {
    if s != [] {
      assert forall i | 0 <= i < |s[1..]| :: s[1..][i] == s[i + 1];
      SumFull(s[1..], f);
      assert forall i | 0 < i < |s| :: s[i] == s[1..][i - 1];
    }
  }

  /** Two measures that agree on every element have the same sum. */
  lemma {:induction false} SumSame<T>(s: seq<T>, f: T -> nat, g: T -> nat)
    requires forall i | 0 <= i < |s| :: f(s[i]) == g(s[i])
    ensures Sum(s, f) == Sum(s, g)
  {
    if s != [] {
      assert forall i | 0 <= i < |s[1..]| :: s[1..][i] == s[i + 1];
      SumSame(s[1..], f, g);
    }
  }

  /** When only one term can be positive, it is the sum. */
  lemma {:induction false} SumOnly<T>(s: seq<T>, h: nat, f: T -> nat)
    requires h < |s|
    requires forall i | 0 <= i < |s| && i != h :: f(s[i]) == 0
    ensures Sum(s, f) == f(s[h])
  {
    assert forall i | 0 <= i < |s[1..]| :: s[1..][i] == s[i + 1];
    if h == 0 {
      SumZero(s[1..], f);
    } else {
      assert f(s[0]) == 0;
      SumOnly(s[1..], h - 1, f);
    }
  }
}
