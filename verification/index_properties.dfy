/**
 What the indexing pass (MainFastq.py lines 37-53) computes, stated in terms of
 the reads themselves: the occurrence table holds exactly the windows of the
 reads, each histogram cell counts the reads carrying its k-mer at its offset,
 the keys come in first-seen order, and the two structures agree on totals.
 */
module IndexProperties {
  import opened Common
  import opened Reads
  import opened WindowScan
  import opened Indexing

  /** What the indexing pass relies on: at least one read, every read as long
      as the first one, and a positive k-mer length. */
  ghost predicate ValidInput(sequences: seq<string>, K: nat)
  {
    |sequences| > 0 && UniformLength(sequences, |sequences[0]|) && K >= 1
  }

  /** The occurrence table records (km, i, p) exactly when read i spells km at offset p. */
  ghost predicate OccurrencesExact(idx: KmerIndex, sequences: seq<string>, K: nat)
  {
    forall km, i: nat, p: nat :: Recorded(idx, km, i, p) <==>
      i < |sequences| && |km| == K && MatchesAt(sequences[i], km, p)
  }

  /** The k-mer occurs somewhere in the reads. */
  ghost predicate Occurs(sequences: seq<string>, km: string)
  {
    exists i: nat, p: nat :: i < |sequences| && MatchesAt(sequences[i], km, p)
  }

  /** Every recorded entry is a real window of a read, and every window of
      every read is recorded; read indices stay below N. */
  lemma IndexOccurrences(sequences: seq<string>, K: nat)
    requires ValidInput(sequences, K)
    ensures OccurrencesExact(Index(sequences, K), sequences, K)
    ensures forall km, i :: km in Index(sequences, K).occ && i in Index(sequences, K).occ[km] ==> i < |sequences|
  {
    var L := |sequences[0]|;
    WindowsMembership(sequences, K, L);
    BuildRecorded(Windows(sequences, K, L), L);
    var idx := Index(sequences, K);
    forall km, i | km in idx.occ && i in idx.occ[km]
      ensures i < |sequences|
    {
      var p :| p in idx.occ[km][i];
      assert Recorded(idx, km, i, p);
    }
  }

  /** The histogram (and so the occurrence table) has a row for exactly the
      k-mers of length K that occur in some read. */
  lemma IndexKeys(sequences: seq<string>, K: nat)
    requires ValidInput(sequences, K)
    ensures forall km :: km in Index(sequences, K).hist <==> |km| == K && Occurs(sequences, km)
  {
    var idx := Index(sequences, K);
    IndexOccurrences(sequences, K);
    forall km | km in idx.hist
      ensures |km| == K && Occurs(sequences, km)
    {
      var i :| i in idx.occ[km];
      var p :| p in idx.occ[km][i];
      assert Recorded(idx, km, i, p);
    }
    forall km | |km| == K && Occurs(sequences, km)
      ensures km in idx.hist
    {
      var i: nat, p: nat :| i < |sequences| && MatchesAt(sequences[i], km, p);
      assert Recorded(idx, km, i, p);
    }
  }

  /** Each row has length L, cell q counts the reads carrying the k-mer at
      offset q, and the cells past the last offset L - K stay zero. */
  lemma IndexHistogram(sequences: seq<string>, K: nat)
    requires ValidInput(sequences, K)
    ensures forall km :: km in Index(sequences, K).hist ==> |Index(sequences, K).hist[km]| == |sequences[0]|
    ensures forall km, q :: km in Index(sequences, K).hist && 0 <= q < |sequences[0]| ==>
              Index(sequences, K).hist[km][q] == Count(sequences, km, q)
    ensures forall km, q :: km in Index(sequences, K).hist && |sequences[0]| - K < q < |sequences[0]| ==>
              Index(sequences, K).hist[km][q] == 0
  {
    var L := |sequences[0]|;
    var idx := Index(sequences, K);
    IndexCells(sequences, K);
    IndexKeys(sequences, K);
    forall km, q | km in idx.hist && L - K < q < L
      ensures idx.hist[km][q] == 0
    {
      CountTooLong(sequences, L, km, q);
    }
  }

  lemma IndexCells(sequences: seq<string>, K: nat)
    requires ValidInput(sequences, K)
    ensures forall km, q :: km in Index(sequences, K).hist && 0 <= q < |sequences[0]| && |km| == K ==>
              Index(sequences, K).hist[km][q] == Count(sequences, km, q)
  {
    var L := |sequences[0]|;
    var ws := Windows(sequences, K, L);
    var idx := Index(sequences, K);
    WindowsMembership(sequences, K, L);
    BuildHist(ws, L);
    forall km, q | km in idx.hist && 0 <= q < L && |km| == K
      ensures idx.hist[km][q] == Count(sequences, km, q)
    {
      CountWindows(sequences, K, L, km, q);
    }
  }

  /** The keys list every k-mer of the scan once, in the order the scan first
      meets it (this is Python's dictionary insertion order). */
  lemma IndexKeyOrder(sequences: seq<string>, K: nat)
    requires ValidInput(sequences, K)
    ensures FirstSeenOrder(Index(sequences, K).keys, KmersOf(Windows(sequences, K, |sequences[0]|)))
  {
    var L := |sequences[0]|;
    WindowsMembership(sequences, K, L);
    BuildKeys(Windows(sequences, K, L), L);
  }

  /** Cross-structure consistency: a k-mer's histogram row sums to the number
      of (read, offset) pairs recorded for it, and that number is positive. */
  lemma IndexConsistency(sequences: seq<string>, K: nat)
    requires ValidInput(sequences, K)
    ensures forall km :: km in Index(sequences, K).hist ==>
              Sum(Index(sequences, K).hist[km]) == |Pairs(Index(sequences, K).occ[km])|
    ensures forall km :: km in Index(sequences, K).hist ==> Sum(Index(sequences, K).hist[km]) > 0
  {
    var L := |sequences[0]|;
    var ws := Windows(sequences, K, L);
    var idx := Index(sequences, K);
    WindowsMembership(sequences, K, L);
    WindowsDistinct(sequences, K, L);
    BuildRowSums(ws, L);
    BuildPairCounts(ws, L);
    forall km | km in idx.hist
      ensures Sum(idx.hist[km]) > 0
    {
      var i :| i in idx.occ[km];
      var p :| p in idx.occ[km][i];
      assert (i, p) in Pairs(idx.occ[km]);
    }
  }

  /** All rows together sum to N * (L - K + 1), the denominator the frequency
      filter uses. When K exceeds L no window exists and both structures stay
      empty. */
  lemma IndexTotal(sequences: seq<string>, K: nat)
    requires ValidInput(sequences, K)
    ensures K <= |sequences[0]| ==>
              SumRows(Index(sequences, K).keys, Index(sequences, K).hist) == TotalPositions(|sequences|, |sequences[0]|, K)
    ensures K > |sequences[0]| ==> Index(sequences, K).keys == []
  {
    var L := |sequences[0]|;
    var ws := Windows(sequences, K, L);
    WindowsMembership(sequences, K, L);
    BuildGrandTotal(ws, L);
    assert |ws| == |sequences| * Span(L, K);
    if K > L {
      assert |ws| == 0;
    } else {
      assert Span(L, K) == L - K + 1;
    }
  }
}
