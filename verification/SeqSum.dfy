/** Sums of a per-element weight over a sequence, used to count threads by program counter. */
module SeqSum {

  // The weight of the first n elements.
  function SumTo<T>(s: seq<T>, weight: T -> nat, n: nat): nat
    requires n <= |s|
  {
    if n == 0 then 0 else SumTo(s, weight, n - 1) + weight(s[n - 1])
  }

  function Sum<T>(s: seq<T>, weight: T -> nat): nat
  {
    SumTo(s, weight, |s|)
  }

  lemma {:induction false} SumToSame<T>(s: seq<T>, t: seq<T>, weight: T -> nat, n: nat)
    requires n <= |s| && n <= |t| && s[..n] == t[..n]
    ensures SumTo(s, weight, n) == SumTo(t, weight, n)
  {
    if n > 0 {
      assert s[n - 1] == s[..n][n - 1] == t[..n][n - 1] == t[n - 1];
      assert s[..n - 1] == s[..n][..n - 1] == t[..n][..n - 1] == t[..n - 1];
      SumToSame(s, t, weight, n - 1);
    }
  }

  lemma {:induction false} SumToUpdate<T>(s: seq<T>, i: nat, v: T, weight: T -> nat, n: nat)
    requires i < n <= |s|
    ensures SumTo(s[i := v], weight, n) + weight(s[i]) == SumTo(s, weight, n) + weight(v)
  {
    if i == n - 1 {
      SumToSame(s, s[i := v], weight, i);
    } else {
      SumToUpdate(s, i, v, weight, n - 1);
    }
  }

  lemma SumUpdate<T>(s: seq<T>, i: nat, v: T, weight: T -> nat)
    requires i < |s|
    ensures Sum(s[i := v], weight) + weight(s[i]) == Sum(s, weight) + weight(v)
  {
    SumToUpdate(s, i, v, weight, |s|);
  }

  lemma {:induction false} SumToConstant<T>(s: seq<T>, weight: T -> nat, w: nat, n: nat)
    requires n <= |s|
    requires forall i :: 0 <= i < n ==> weight(s[i]) == w
    ensures SumTo(s, weight, n) == n * w
  {
    if n > 0 {
      SumToConstant(s, weight, w, n - 1);
      assert n * w == (n - 1) * w + w;
    }
  }

  // With weights 0 and 1 the sum is at most the length, and reaches it only if every element weighs 1.
  lemma {:induction false} SumToBits<T>(s: seq<T>, weight: T -> nat, n: nat)
    requires n <= |s|
    requires forall i :: 0 <= i < n ==> weight(s[i]) <= 1
    ensures SumTo(s, weight, n) <= n
    ensures SumTo(s, weight, n) == n ==> forall i :: 0 <= i < n ==> weight(s[i]) == 1
    ensures (exists i :: 0 <= i < n && weight(s[i]) == 1) <==> SumTo(s, weight, n) > 0
  {
    if n > 0 {
      SumToBits(s, weight, n - 1);
    }
  }

  ghost function Ones<T>(s: seq<T>, weight: T -> nat, n: nat): set<int>
    requires n <= |s|
  {
    set i | 0 <= i < n && weight(s[i]) == 1
  }

  // With weights 0 and 1 the sum counts.
  lemma {:induction false} SumToCounts<T>(s: seq<T>, weight: T -> nat, n: nat)
    requires n <= |s| && forall i :: 0 <= i < n ==> weight(s[i]) <= 1
    ensures SumTo(s, weight, n) == |Ones(s, weight, n)|
  {
    if n > 0 {
      SumToCounts(s, weight, n - 1);
      assert Ones(s, weight, n) == Ones(s, weight, n - 1) + if weight(s[n - 1]) == 1 then {n - 1} else {};
    }
  }
}
