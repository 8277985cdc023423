/**
 Shared vocabulary of the k-mer analyzer: the error taxonomy, a failure-compatible
 result type, and small facts about sums, distinctness and first positions in
 sequences that the pipeline stages rely on.
 */
module Common {

  /** The ways a run of the pipeline can stop. */
  datatype Error =
    | EmptyInput        // the read file held no records
    | NoSurvivingKmers  // the frequency threshold discarded every k-mer
    | NoData            // the dominant k-mer has no occurrence entry

  /** Either the value a stage produced or the error that stopped it. */
  datatype Result<+T> = Success(value: T) | Failure(error: Error) {

    predicate IsFailure() {
      Failure?
    }

    function PropagateFailure<U>(): Result<U>
      requires Failure?
    {
      Failure(error)
    }

    function Extract(): T
      requires Success?
    {
      value
    }
  }

  /** Sum of a sequence of counts. */
  function Sum(s: seq<nat>): nat
  {
    if |s| == 0 then 0 else Sum(s[..|s| - 1]) + s[|s| - 1]
  }

  /** A row of n zero counts. */
  function Zeros(n: nat): (z: seq<nat>)
    ensures |z| == n
    ensures forall q :: 0 <= q < n ==> z[q] == 0
  {
    seq(n, _ => 0)
  }

  /** No element occurs twice. */
  predicate Distinct<T(==)>(s: seq<T>)
  {
    forall i, j :: 0 <= i < j < |s| ==> s[i] != s[j]
  }

  /** Position of the first occurrence of x in s. */
  function IndexOf<T(==)>(s: seq<T>, x: T): (i: nat)
    requires x in s
    ensures i < |s| && s[i] == x
    ensures x !in s[..i]
  {
    if s[0] == x then 0 else 1 + IndexOf(s[1..], x)
  }

  /** An element of a non-empty list is in its prefix or is its last element. */
  lemma InSnoc<T>(s: seq<T>, x: T)
    requires |s| > 0
    ensures x in s <==> x in s[..|s| - 1] || x == s[|s| - 1]
  {
    assert s == s[..|s| - 1] + [s[|s| - 1]];
  }

  /** Appending a new element keeps a list free of duplicates. */
  lemma DistinctAppend<T>(s: seq<T>, x: T)
    requires Distinct(s)
    ensures x !in s ==> Distinct(s + [x])
  {
  }

  lemma {:induction false} SumZeros(n: nat)
    ensures Sum(Zeros(n)) == 0
  {
    if n > 0 {
      assert Zeros(n)[..n - 1] == Zeros(n - 1);
      SumZeros(n - 1);
    }
  }

  /** Adding one to a single cell adds one to the total. */
  lemma {:induction false} SumIncrement(s: seq<nat>, p: nat)
    requires p < |s|
    ensures Sum(s[p := s[p] + 1]) == Sum(s) + 1
  {
    var t := s[p := s[p] + 1];
    if p == |s| - 1 {
      assert t[..|t| - 1] == s[..|s| - 1];
    } else {
      assert t[..|t| - 1] == s[..|s| - 1][p := s[p] + 1];
      SumIncrement(s[..|s| - 1], p);
    }
  }

  /** A positive total has a positive cell. */
  lemma {:induction false} SumPositive(s: seq<nat>)
    requires Sum(s) > 0
    ensures exists q :: 0 <= q < |s| && s[q] > 0
  {
    if s[|s| - 1] == 0 {
      SumPositive(s[..|s| - 1]);
      var q :| 0 <= q < |s| - 1 && s[..|s| - 1][q] > 0;
      assert s[q] > 0;
    }
  }

  /** Appending an element that is already present does not move first positions;
      appending a new one puts it last. */
  lemma {:induction false} IndexOfAppend<T>(s: seq<T>, y: T, x: T)
    requires x in s + [y]
    ensures x in s ==> IndexOf(s + [y], x) == IndexOf(s, x)
    ensures x !in s ==> IndexOf(s + [y], x) == |s|
  {
    if s != [] && s[0] != x {
      assert (s + [y])[1..] == s[1..] + [y];
      IndexOfAppend(s[1..], y, x);
    }
  }

  /** First positions in a prefix of a duplicate-free list are first positions
      in the whole list. */
  lemma IndexOfPrefix<T>(keys: seq<T>, k: T)
    requires |keys| > 0 && Distinct(keys)
    requires k in keys
    ensures k in keys[..|keys| - 1] ==> IndexOf(keys, k) == IndexOf(keys[..|keys| - 1], k)
    ensures k !in keys[..|keys| - 1] <==> IndexOf(keys, k) == |keys| - 1
  {
    var n := |keys| - 1;
    assert keys == keys[..n] + [keys[n]];
    IndexOfAppend(keys[..n], keys[n], k);
  }

  /** A total is at least each of its cells. */
  lemma {:induction false} SumAtLeast(s: seq<nat>, i: nat)
    requires i < |s|
    ensures Sum(s) >= s[i]
  {
    if i < |s| - 1 {
      SumAtLeast(s[..|s| - 1], i);
    }
  }
}
