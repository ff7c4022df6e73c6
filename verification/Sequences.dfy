/** Sequences without duplicates, and taking one element out. */
module Sequences {

  ghost predicate Differ<T>(s: seq<T>, i: nat, j: nat)
    requires i < |s| && j < |s|
  {
    s[i] != s[j]
  }

  ghost predicate Distinct<T>(s: seq<T>) { forall i, j | 0 <= i < j < |s| :: Differ(s, i, j) }

  lemma OthersDiffer<T>(s: seq<T>, k: nat)
    requires Distinct(s) && k < |s|
    ensures forall i | 0 <= i < |s| && i != k :: s[i] != s[k]
  {
    forall i | 0 <= i < |s| && i != k ensures s[i] != s[k] {
      if i < k { assert Differ(s, i, k); } else { assert Differ(s, k, i); }
    }
  }

  function Without<T>(s: seq<T>, k: nat): seq<T>
    requires k < |s|
  {
    s[..k] + s[k + 1..]
  }

  lemma WithoutDistinct<T>(s: seq<T>, k: nat)
    requires Distinct(s) && k < |s|
    ensures Distinct(Without(s, k)) && s[k] !in Without(s, k)
  {
    var now := Without(s, k);
    forall i, j | 0 <= i < j < |now| ensures Differ(now, i, j) {
      assert Differ(s, if i < k then i else i + 1, if j < k then j else j + 1);
    }
    forall i | 0 <= i < |now| ensures now[i] != s[k] {
      if i < k { assert Differ(s, i, k); } else { assert Differ(s, k, i + 1); }
    }
  }

  lemma ConsDistinct<T>(x: T, s: seq<T>)
    requires Distinct(s) && x !in s
    ensures Distinct([x] + s)
  {
    var now := [x] + s;
    forall i, j | 0 <= i < j < |now| ensures Differ(now, i, j) {
      if i > 0 { assert Differ(s, i - 1, j - 1); }
    }
  }

  lemma TailDistinct<T>(s: seq<T>)
    requires Distinct(s) && s != []
    ensures Distinct(s[1..]) && s[0] !in s[1..]
  {
    WithoutDistinct(s, 0);
    assert Without(s, 0) == s[1..];
  }

  /** An element has but one position. */
  lemma OnePosition<T>(s: seq<T>, j: nat, k: nat)
    requires Distinct(s) && j < |s| && k < |s| && s[j] == s[k]
    ensures j == k
  {
    assert j < k ==> Differ(s, j, k);
    assert k < j ==> Differ(s, k, j);
  }
}
