/**
 The frequency filter, `FastqAnalyzer.filter_kmers_by_frequency`
 (MainFastq.py lines 55-70): keep the k-mers whose histogram total, divided by
 the number of positions N * (L - K + 1), reaches the threshold F; copy their
 histogram rows and occurrence entries unchanged, in dictionary order; fail when
 nothing survives.
 */
module Filtering {
  import opened Common
  import opened Indexing

  /** The test of line 62, `sum / total >= F`, with the division cleared. The
      filter only evaluates it when total is positive (see KeepIsRatioTest). */
  predicate Keep(sum: nat, total: int, F: real)
  {
    (sum as real) >= F * (total as real)
  }

  /** sub lists some of the elements of keys, each once, in the order keys lists them. */
  ghost predicate SubsequenceOf(sub: seq<string>, keys: seq<string>)
  {
    && Distinct(sub)
    && (forall k :: k in sub ==> k in keys)
    && (forall a, b :: 0 <= a < b < |sub| ==> IndexOf(keys, sub[a]) < IndexOf(keys, sub[b]))
  }

  /** For a positive denominator the cleared test is the source's ratio test. */
  lemma KeepIsRatioTest(sum: nat, total: int, F: real)
    requires total > 0
    ensures Keep(sum, total, F) <==> (sum as real) / (total as real) >= F
  {
    var t := total as real;
    var s := sum as real;
    assert s == (s / t) * t;
    if s / t >= F {
      assert (s / t) * t >= F * t;
    } else {
      assert (s / t) * t < F * t;
    }
  }

  /** The keys of the loop of lines 60-64 that pass the test, in dictionary order. */
  function KeptKeys(keys: seq<string>, hist: map<string, seq<nat>>, total: int, F: real): (kept: seq<string>)
    requires Distinct(keys)
    requires forall k :: k in keys ==> k in hist
    ensures forall k :: k in kept <==> k in keys && Keep(Sum(hist[k]), total, F)
    ensures Distinct(kept)
  {
    if |keys| == 0 then []
    else
      var n := |keys| - 1;
      var prev := KeptKeys(keys[..n], hist, total, F);
      var k := keys[n];
      assert k !in keys[..n];
      if Keep(Sum(hist[k]), total, F) then prev + [k] else prev
  }

  /** The kept keys keep their relative dictionary order. */
  lemma {:induction false} KeptKeysOrder(keys: seq<string>, hist: map<string, seq<nat>>, total: int, F: real)
    requires Distinct(keys)
    requires forall k :: k in keys ==> k in hist
    ensures SubsequenceOf(KeptKeys(keys, hist, total, F), keys)
  {
    if |keys| > 0 {
      var n := |keys| - 1;
      KeptKeysOrder(keys[..n], hist, total, F);
      SubsequenceExtend(keys, KeptKeys(keys[..n], hist, total, F));
    }
  }

  /** A subsequence of keys[..n] is one of keys, and stays one when the last
      key is appended. */
  lemma SubsequenceExtend(keys: seq<string>, prev: seq<string>)
    requires |keys| > 0 && Distinct(keys)
    requires SubsequenceOf(prev, keys[..|keys| - 1])
    ensures SubsequenceOf(prev, keys)
    ensures SubsequenceOf(prev + [keys[|keys| - 1]], keys)
  {
    var n := |keys| - 1;
    var x := keys[n];
    forall k | k in prev
      ensures IndexOf(keys, k) == IndexOf(keys[..n], k) < n
    {
      IndexOfPrefix(keys, k);
    }
    IndexOfPrefix(keys, x);
    assert x !in keys[..n];
    var ext := prev + [x];
    forall a, b | 0 <= a < b < |ext|
      ensures ext[a] in keys && ext[b] in keys && IndexOf(keys, ext[a]) < IndexOf(keys, ext[b])
    {
      assert prev[a] in prev;
      if b == |prev| {
        assert ext[a] == prev[a] && ext[b] == x;
      } else {
        assert prev[b] in prev;
        assert ext[a] == prev[a] && ext[b] == prev[b];
      }
    }
  }

  /** `filter_kmers_by_frequency`; `total` is `total_positions` of line 56. */
  function Filter(idx: KmerIndex, total: int, F: real): (r: Result<KmerIndex>)
    requires KeysAgree(idx)
    requires idx.keys != [] ==> total > 0
    ensures r.Failure? <==> forall k :: k in idx.keys ==> !Keep(Sum(idx.hist[k]), total, F)
    ensures r.Failure? ==> r.error == NoSurvivingKmers
    ensures r.Success? ==> KeysAgree(r.value) && r.value.keys != []
    ensures r.Success? ==> forall k :: k in r.value.hist <==> k in idx.hist && Keep(Sum(idx.hist[k]), total, F)
    ensures r.Success? ==> forall k :: k in r.value.hist ==> r.value.hist[k] == idx.hist[k] && r.value.occ[k] == idx.occ[k]
  {
    var kept := KeptKeys(idx.keys, idx.hist, total, F);
    if kept == [] then Failure(NoSurvivingKmers)
    else
      assert kept[0] in kept;
      Success(KmerIndex(kept, map k | k in kept :: idx.occ[k], map k | k in kept :: idx.hist[k]))
  }

  /** The surviving keys keep their relative dictionary order. */
  lemma FilterKeepsOrder(idx: KmerIndex, total: int, F: real)
    requires KeysAgree(idx)
    requires idx.keys != [] ==> total > 0
    ensures Filter(idx, total, F).Success? ==> SubsequenceOf(Filter(idx, total, F).value.keys, idx.keys)
  {
    KeptKeysOrder(idx.keys, idx.hist, total, F);
  }

  /** Filtering keeps the structural invariant of the index. */
  lemma FilterWellFormed(idx: KmerIndex, L: nat, total: int, F: real)
    requires WellFormed(idx, L)
    requires idx.keys != [] ==> total > 0
    ensures Filter(idx, total, F).Success? ==> WellFormed(Filter(idx, total, F).value, L)
  {
  }

  lemma {:induction false} KeptKeysAll(keys: seq<string>, hist: map<string, seq<nat>>, total: int, F: real)
    requires Distinct(keys)
    requires forall k :: k in keys ==> k in hist && Keep(Sum(hist[k]), total, F)
    ensures KeptKeys(keys, hist, total, F) == keys
  {
    if |keys| > 0 {
      var n := |keys| - 1;
      KeptKeysAll(keys[..n], hist, total, F);
      assert keys == keys[..n] + [keys[n]];
    }
  }

  /** An index all of whose k-mers pass the test comes through the filter unchanged. */
  lemma FilterAllKept(f: KmerIndex, total: int, F: real)
    requires KeysAgree(f) && f.keys != [] && total > 0
    requires forall k :: k in f.keys ==> Keep(Sum(f.hist[k]), total, F)
    ensures Filter(f, total, F) == Success(f)
  {
    KeptKeysAll(f.keys, f.hist, total, F);
    assert (map k | k in f.keys :: f.occ[k]) == f.occ;
    assert (map k | k in f.keys :: f.hist[k]) == f.hist;
  }

  /** Re-applying the filter with the same threshold changes nothing. */
  lemma FilterIdempotent(idx: KmerIndex, total: int, F: real)
    requires KeysAgree(idx)
    requires idx.keys != [] ==> total > 0
    ensures Filter(idx, total, F).Success? ==> Filter(Filter(idx, total, F).value, total, F) == Filter(idx, total, F)
  {
    if Filter(idx, total, F).Success? {
      var f := Filter(idx, total, F).value;
      assert forall k :: k in f.keys ==> Keep(Sum(f.hist[k]), total, F);
      FilterAllKept(f, total, F);
    }
  }

  /** Raising the threshold never enlarges the surviving set: whatever survives
      F2 survives any F1 <= F2. */
  lemma FilterMonotone(idx: KmerIndex, total: int, F1: real, F2: real)
    requires KeysAgree(idx)
    requires idx.keys != [] ==> total > 0
    requires F1 <= F2
    ensures Filter(idx, total, F2).Success? ==>
              && Filter(idx, total, F1).Success?
              && Filter(idx, total, F2).value.hist.Keys <= Filter(idx, total, F1).value.hist.Keys
  {
    if Filter(idx, total, F2).Success? {
      var f2 := Filter(idx, total, F2).value;
      var k :| k in f2.keys;
      KeepMonotone(Sum(idx.hist[k]), total, F1, F2);
      forall k | k in idx.hist && Keep(Sum(idx.hist[k]), total, F2)
        ensures Keep(Sum(idx.hist[k]), total, F1)
      {
        KeepMonotone(Sum(idx.hist[k]), total, F1, F2);
      }
    }
  }

  lemma KeepMonotone(sum: nat, total: int, F1: real, F2: real)
    requires total > 0 && F1 <= F2
    ensures Keep(sum, total, F2) ==> Keep(sum, total, F1)
  {
    assert F1 * (total as real) <= F2 * (total as real);
  }
}
