/**
 A worked run on three reads of length 5 with K = 3 and F = 0.1. Three cells
 share the maximal count 2 (AAA at offset 0, AAT at offset 1, ATT at offset 2);
 the scan keeps the first of them in dictionary order, AAA at offset 0, because
 AAA is the first k-mer the indexing pass meets.
 */
module Scenario {
  import opened Common
  import opened Reads
  import opened WindowScan
  import opened Indexing
  import opened IndexProperties
  import opened Filtering
  import opened Selection
  import opened Extraction
  import opened Pipeline

  /** The first window of a read is its prefix of length K. */
  lemma {:induction false} ReadWindowsHead(r: string, i: nat, K: nat, n: nat)
    requires 0 < n <= Span(|r|, K)
    ensures ReadWindows(r, i, K, n)[0] == Window(i, 0, r[..K])
  {
    if n > 1 {
      ReadWindowsHead(r, i, K, n - 1);
    }
  }

  /** The scan starts with the first window of the first read. */
  lemma {:induction false} WindowsHead(sequences: seq<string>, K: nat, L: nat)
    requires |sequences| > 0 && UniformLength(sequences, L) && K <= L
    ensures |Windows(sequences, K, L)| > 0
    ensures Windows(sequences, K, L)[0] == Window(0, 0, sequences[0][..K])
  {
    var n := |sequences| - 1;
    if n == 0 {
      ReadWindowsHead(sequences[0], 0, K, Span(L, K));
    } else {
      WindowsHead(sequences[..n], K, L);
    }
  }

  /** The first k-mer of the first read heads the dictionary order. */
  lemma FirstKey(sequences: seq<string>, K: nat)
    requires ValidInput(sequences, K) && K <= |sequences[0]|
    ensures Index(sequences, K).keys != [] && Index(sequences, K).keys[0] == sequences[0][..K]
  {
    var L := |sequences[0]|;
    var keys := Index(sequences, K).keys;
    var ks := KmersOf(Windows(sequences, K, L));
    var x := sequences[0][..K];
    WindowsHead(sequences, K, L);
    IndexKeyOrder(sequences, K);
    assert ks[0] == x;
    assert IndexOf(ks, x) == 0;
  }

  /** A subsequence that contains the head of a list starts with it. */
  lemma SubsequenceHead(sub: seq<string>, keys: seq<string>)
    requires SubsequenceOf(sub, keys)
    requires |keys| > 0 && keys[0] in sub
    ensures sub[0] == keys[0]
  {
    assert IndexOf(keys, keys[0]) == 0;
  }

  const Sample: seq<string> := ["AAATT", "AATTT", "AAATT"]

  /** No 3-mer occurs at the same offset in all three reads. */
  lemma SampleCountsAtMostTwo(km: string, q: nat)
    requires |km| == 3
    ensures Count(Sample, km, q) <= 2
  {
    assert Sample[..2][..1] == ["AAATT"];
    assert Sample[..2] == ["AAATT", "AATTT"];
    if q <= 2 {
      FirstTwoDisagree(q);
    }
    assert !(MatchesAt(Sample[0], km, q) && MatchesAt(Sample[1], km, q));
  }

  /** The first two reads differ in every window: they differ at index 2. */
  lemma FirstTwoDisagree(q: nat)
    requires q <= 2
    ensures Sample[0][q..q + 3] != Sample[1][q..q + 3]
  {
    assert Sample[0][q..q + 3][2 - q] != Sample[1][q..q + 3][2 - q];
  }

  /** Reads 0 and 2 start with AAA; read 1 does not. */
  lemma SampleCarriers()
    ensures forall i :: 0 <= i < |Sample| ==> (MatchesAt(Sample[i], "AAA", 0) <==> i != 1)
  {
    assert Sample[1][0..3][2] != "AAA"[2];
    assert Sample[0][0..3] == "AAA" && Sample[2][0..3] == "AAA";
  }

  lemma SampleCountAAA()
    ensures Count(Sample, "AAA", 0) == 2
  {
    assert Sample[..2][..1] == ["AAATT"];
    assert Sample[..2] == ["AAATT", "AATTT"];
    assert Sample[1][0..3][2] != "AAA"[2];
    assert Sample[0][0..3] == "AAA" && Sample[2][0..3] == "AAA";
  }

  lemma SampleSurvivor()
    ensures ValidInput(Sample, 3)
    ensures Survives(Sample, 3, 0.1, "AAA")
  {
    SampleCountAAA();
    assert MatchesAt(Sample[0], "AAA", 0);
    SumAtLeast(Profile(Sample, "AAA", 5), 0);
  }

  /** A surviving k-mer makes the filter succeed and is among its keys. */
  lemma SurvivorKept(sequences: seq<string>, K: nat, F: real, km: string)
    requires ValidInput(sequences, K)
    ensures Survives(sequences, K, F, km) ==>
              Filtered(sequences, K, F).Success? && km in Filtered(sequences, K, F).value.keys
  {
    RunOutcome(sequences, K, F);
    FilteredExact(sequences, K, F);
  }

  /** When the first k-mer of the first read survives, the filter succeeds
      and that k-mer still heads the dictionary order. */
  lemma FilteredHead(sequences: seq<string>, K: nat, F: real)
    requires ValidInput(sequences, K) && K <= |sequences[0]|
    ensures Survives(sequences, K, F, sequences[0][..K]) ==>
              && Filtered(sequences, K, F).Success?
              && Filtered(sequences, K, F).value.keys != []
              && Filtered(sequences, K, F).value.keys[0] == sequences[0][..K]
  {
    var x := sequences[0][..K];
    SurvivorKept(sequences, K, F, x);
    if Survives(sequences, K, F, x) {
      var idx := Index(sequences, K);
      var total := TotalPositions(|sequences|, |sequences[0]|, K);
      IndexDenominator(sequences, K);
      assert Filtered(sequences, K, F) == Filter(idx, total, F);
      FirstKey(sequences, K);
      FilterKeepsOrder(idx, total, F);
      SubsequenceHead(Filter(idx, total, F).value.keys, idx.keys);
    }
  }

  /** After filtering, AAA is still the first key, and its cell at offset 0 holds 2. */
  lemma SampleFiltered()
    ensures ValidInput(Sample, 3)
    ensures Filtered(Sample, 3, 0.1).Success?
    ensures Filtered(Sample, 3, 0.1).value.keys[0] == "AAA"
    ensures Filtered(Sample, 3, 0.1).value.hist["AAA"][0] == 2
  {
    SampleSurvivor();
    assert Sample[0][..3] == "AAA";
    FilteredHead(Sample, 3, 0.1);
    FilteredExact(Sample, 3, 0.1);
    SampleCountAAA();
  }

  /** The dominant count of the sample is 2. */
  lemma SampleDominantCount()
    ensures ValidInput(Sample, 3)
    ensures Run(Sample, 3, 0.1).Success?
    ensures Run(Sample, 3, 0.1).value.1.count == 2
    ensures Run(Sample, 3, 0.1).value.1 == MostFrequent(Filtered(Sample, 3, 0.1).value)
  {
    SampleFiltered();
    RunBest(Sample, 3, 0.1);
    DominantCell(Sample, 3, 0.1);
    DominantMax(Sample, 3, 0.1);
    var d := Run(Sample, 3, 0.1).value.1;
    SampleCountsAtMostTwo(d.kmer, d.offset);
    SampleSurvivor();
    SampleCountAAA();
  }

  /** The dominant cell of the sample is AAA at offset 0 with count 2: AAT at
      offset 1 and ATT at offset 2 also reach 2 but come later in the scan. */
  lemma SampleDominant()
    ensures ValidInput(Sample, 3)
    ensures Run(Sample, 3, 0.1).Success?
    ensures Run(Sample, 3, 0.1).value.1 == Best("AAA", 0, 2)
  {
    SampleFiltered();
    SampleDominantCount();
    var f := Filtered(Sample, 3, 0.1).value;
    var d := MostFrequent(f);
    FirstMaxAtHead(f.keys, f.hist, d);
  }

  /** The run on the sample selects reads 0 and 2, the two that start with AAA. */
  lemma SampleSelection()
    ensures ValidInput(Sample, 3)
    ensures Run(Sample, 3, 0.1).Success?
    ensures Run(Sample, 3, 0.1).value.2 == [0, 2]
  {
    SampleDominant();
    RunSelection(Sample, 3, 0.1);
    var ids := Run(Sample, 3, 0.1).value.2;
    SampleCarriers();
    assert 0 in ids && 2 in ids;
    AscendingPair(ids, 0, 2);
  }

  /** An ascending list of two elements that holds a < b is [a, b]. */
  lemma AscendingPair(ids: seq<nat>, a: nat, b: nat)
    requires Ascending(ids) && |ids| == 2
    requires a in ids && b in ids && a < b
    ensures ids == [a, b]
  {
  }
}
