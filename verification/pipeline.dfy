/**
 The analysis as the driver of MainFastq.py (lines 132-149) strings it together:
 load the records (failing on an empty file, lines 28-31), index the k-mers,
 filter them by frequency, pick the dominant k-mer and position, and select and
 annotate the reads that carry it there. The properties below describe the
 outcome in terms of the reads alone.
 */
module Pipeline {
  import opened Common
  import opened Reads
  import opened Indexing
  import opened IndexProperties
  import opened Filtering
  import opened Selection
  import opened Extraction

  /** What a successful run produces: the filtered index, the dominant cell,
      the indices of the selected reads and the annotated records to write. */
  datatype Analysis = Analysis(index: KmerIndex, dominant: Best, selected: seq<nat>, output: seq<Read>)

  /** The positional profile of km: for each offset below L, how many reads carry km there. */
  function Profile(sequences: seq<string>, km: string, L: nat): (row: seq<nat>)
    ensures |row| == L
    ensures forall q :: 0 <= q < L ==> row[q] == Count(sequences, km, q)
  {
    seq(L, q requires 0 <= q < L => Count(sequences, km, q))
  }

  /** km passes the frequency filter: it has length K, occurs in some read, and
      its number of occurrences reaches the fraction F of all scanned positions. */
  ghost predicate Survives(sequences: seq<string>, K: nat, F: real, km: string)
    requires |sequences| > 0
  {
    var L := |sequences[0]|;
    && |km| == K
    && Occurs(sequences, km)
    && Keep(Sum(Profile(sequences, km, L)), TotalPositions(|sequences|, L, K), F)
  }

  /** The index after the frequency filter, with the denominator of line 56. */
  function Filtered(sequences: seq<string>, K: nat, F: real): (r: Result<KmerIndex>)
    requires ValidInput(sequences, K)
    ensures r.Success? ==> KeysAgree(r.value) && r.value.keys != []
    ensures r.Success? ==> forall km :: km in r.value.occ ==> km in Index(sequences, K).occ && r.value.occ[km] == Index(sequences, K).occ[km]
    ensures r.Failure? ==> r.error == NoSurvivingKmers
  {
    IndexDenominator(sequences, K);
    Filter(Index(sequences, K), TotalPositions(|sequences|, |sequences[0]|, K), F)
  }

  /** The stages after loading, on the bases of the reads: index, filter with
      the denominator of line 56, pick the dominant cell, select the reads. */
  function Run(sequences: seq<string>, K: nat, F: real): (r: Result<(KmerIndex, Best, seq<nat>)>)
    requires ValidInput(sequences, K)
    ensures r.Failure? ==> r.error == NoSurvivingKmers || r.error == NoData
  {
    IndexReadBound(sequences, K);
    var filtered :- Filtered(sequences, K, F);
    var best := MostFrequent(filtered);
    var ids :- SelectReads(filtered.occ, |sequences|, best.kmer, best.offset);
    Success((filtered, best, ids))
  }

  /** The whole run. `summary` renders the quality scores of a record for its
      description (the formatted mean of line 86). */
  function Analyze(records: seq<Read>, K: nat, F: real, summary: seq<nat> -> string): (r: Result<Analysis>)
    requires K >= 1
    requires |records| > 0 ==> UniformLength(Sequences(records), |records[0].sequence|)
    ensures r == Failure(EmptyInput) <==> |records| == 0
  {
    if |records| == 0 then Failure(EmptyInput)
    else
      var run :- Run(Sequences(records), K, F);
      var (filtered, best, ids) := run;
      Success(Analysis(filtered, best, ids, Output(records, ids, summary)))
  }

  /** The filter's denominator is positive whenever the index has a key. */
  lemma IndexDenominator(sequences: seq<string>, K: nat)
    requires ValidInput(sequences, K)
    ensures Index(sequences, K).keys != [] ==> TotalPositions(|sequences|, |sequences[0]|, K) > 0
  {
    IndexTotal(sequences, K);
    if K <= |sequences[0]| {
      TotalPositionsPositive(|sequences|, |sequences[0]|, K);
    }
  }

  /** Every read index in the occurrence table names a read. */
  lemma IndexReadBound(sequences: seq<string>, K: nat)
    requires ValidInput(sequences, K)
    ensures forall km, i :: km in Index(sequences, K).occ && i in Index(sequences, K).occ[km] ==> i < |sequences|
  {
    IndexOccurrences(sequences, K);
  }

  /** Every histogram row of the index is the profile of its k-mer. */
  lemma IndexProfile(sequences: seq<string>, K: nat)
    requires ValidInput(sequences, K)
    ensures forall km :: km in Index(sequences, K).hist ==>
              Index(sequences, K).hist[km] == Profile(sequences, km, |sequences[0]|)
  {
    IndexHistogram(sequences, K);
  }

  /** The k-mers that survive filtering are exactly those of Survives. */
  lemma SurvivorsExact(sequences: seq<string>, K: nat, F: real)
    requires ValidInput(sequences, K)
    ensures forall km ::
              (km in Index(sequences, K).hist && Keep(Sum(Index(sequences, K).hist[km]), TotalPositions(|sequences|, |sequences[0]|, K), F))
              <==> Survives(sequences, K, F, km)
  {
    IndexProfile(sequences, K);
    IndexKeys(sequences, K);
  }

  /** A run fails exactly when no k-mer survives, and then with
      NoSurvivingKmers; the lookup of the dominant k-mer never fails. */
  lemma RunOutcome(sequences: seq<string>, K: nat, F: real)
    requires ValidInput(sequences, K)
    ensures Run(sequences, K, F).Failure? <==> forall km :: !Survives(sequences, K, F, km)
    ensures Run(sequences, K, F).Failure? ==> Run(sequences, K, F).error == NoSurvivingKmers
  {
    var total := TotalPositions(|sequences|, |sequences[0]|, K);
    var idx := Index(sequences, K);
    IndexDenominator(sequences, K);
    SurvivorsExact(sequences, K, F);
    var f := Filtered(sequences, K, F);
    if f.Success? {
      DominantPositive(sequences, K, F);
      var k :| k in f.value.keys;
      assert Survives(sequences, K, F, k);
    }
  }

  /** A non-empty input fails exactly when no k-mer survives, and then with
      NoSurvivingKmers. */
  lemma AnalyzeOutcome(records: seq<Read>, K: nat, F: real, summary: seq<nat> -> string)
    requires K >= 1 && |records| > 0
    requires UniformLength(Sequences(records), |records[0].sequence|)
    ensures Analyze(records, K, F, summary).Failure? <==> forall km :: !Survives(Sequences(records), K, F, km)
    ensures Analyze(records, K, F, summary).Failure? ==> Analyze(records, K, F, summary).error == NoSurvivingKmers
  {
    RunOutcome(Sequences(records), K, F);
  }

  /** After a successful filter the dominant count is positive, so the
      dominant k-mer is one of the surviving keys. */
  lemma DominantPositive(sequences: seq<string>, K: nat, F: real)
    requires ValidInput(sequences, K)
    ensures Filtered(sequences, K, F).Success? ==> MostFrequent(Filtered(sequences, K, F).value).count > 0
  {
    if Filtered(sequences, K, F).Success? {
      var f := Filtered(sequences, K, F).value;
      IndexDenominator(sequences, K);
      IndexConsistency(sequences, K);
      var k :| k in f.keys;
      MostFrequentPositive(f, k);
    }
  }

  /** The filtered index holds a row for exactly the surviving k-mers, and
      that row is the k-mer's profile. */
  lemma FilteredExact(sequences: seq<string>, K: nat, F: real)
    requires ValidInput(sequences, K)
    ensures Filtered(sequences, K, F).Success? ==>
              forall km :: km in Filtered(sequences, K, F).value.hist <==> Survives(sequences, K, F, km)
    ensures Filtered(sequences, K, F).Success? ==>
              forall km :: km in Filtered(sequences, K, F).value.hist ==>
                Filtered(sequences, K, F).value.hist[km] == Profile(sequences, km, |sequences[0]|)
  {
    IndexDenominator(sequences, K);
    SurvivorsExact(sequences, K, F);
    IndexProfile(sequences, K);
  }

  /** The dominant cell of a successful run: a surviving k-mer at an offset
      inside the reads, whose count is the number of reads carrying it there,
      and no surviving k-mer is carried by more reads at any offset. */
  lemma RunDominant(sequences: seq<string>, K: nat, F: real)
    requires ValidInput(sequences, K)
    ensures Run(sequences, K, F).Success? ==>
              var d := Run(sequences, K, F).value.1;
              && d.count > 0
              && Survives(sequences, K, F, d.kmer)
              && d.offset < |sequences[0]|
              && d.count == Count(sequences, d.kmer, d.offset)
    ensures Run(sequences, K, F).Success? ==>
              var d := Run(sequences, K, F).value.1;
              forall km, q :: Survives(sequences, K, F, km) && 0 <= q < |sequences[0]| ==> Count(sequences, km, q) <= d.count
  {
    if Run(sequences, K, F).Success? {
      RunBest(sequences, K, F);
      DominantCell(sequences, K, F);
      DominantMax(sequences, K, F);
    }
  }

  /** A successful run reports the dominant cell of the filtered index. */
  lemma RunBest(sequences: seq<string>, K: nat, F: real)
    requires ValidInput(sequences, K)
    ensures Run(sequences, K, F).Success? ==>
              && Filtered(sequences, K, F).Success?
              && Run(sequences, K, F).value.1 == MostFrequent(Filtered(sequences, K, F).value)
  {
  }

  /** After a successful filter the dominant cell is a surviving k-mer at an
      offset inside the reads, counting the reads that carry it there. */
  lemma DominantCell(sequences: seq<string>, K: nat, F: real)
    requires ValidInput(sequences, K)
    ensures Filtered(sequences, K, F).Success? ==>
              var d := MostFrequent(Filtered(sequences, K, F).value);
              && d.count > 0
              && Survives(sequences, K, F, d.kmer)
              && d.offset < |sequences[0]|
              && d.count == Count(sequences, d.kmer, d.offset)
  {
    if Filtered(sequences, K, F).Success? {
      var f := Filtered(sequences, K, F).value;
      var d := MostFrequent(f);
      IndexReadBound(sequences, K);
      DominantPositive(sequences, K, F);
      assert d.kmer in f.occ;
      FilteredExact(sequences, K, F);
      assert f.hist[d.kmer][d.offset] == Count(sequences, d.kmer, d.offset);
    }
  }

  /** After a successful filter no surviving k-mer is carried by more reads,
      at any offset, than the dominant count. */
  lemma DominantMax(sequences: seq<string>, K: nat, F: real)
    requires ValidInput(sequences, K)
    ensures Filtered(sequences, K, F).Success? ==>
              var d := MostFrequent(Filtered(sequences, K, F).value);
              forall km, q :: Survives(sequences, K, F, km) && 0 <= q < |sequences[0]| ==> Count(sequences, km, q) <= d.count
  {
    if Filtered(sequences, K, F).Success? {
      var f := Filtered(sequences, K, F).value;
      var d := MostFrequent(f);
      FilteredExact(sequences, K, F);
      forall km, q | Survives(sequences, K, F, km) && 0 <= q < |sequences[0]|
        ensures Count(sequences, km, q) <= d.count
      {
        var j := IndexOf(f.keys, km);
        assert f.hist[f.keys[j]][q] <= d.count;
      }
    }
  }

  /** The reads a successful run selects are exactly those carrying the
      dominant k-mer at the dominant offset, in input order, and there are as
      many of them as the dominant count. */
  lemma RunSelection(sequences: seq<string>, K: nat, F: real)
    requires ValidInput(sequences, K)
    ensures Run(sequences, K, F).Success? ==>
              var (_, d, ids) := Run(sequences, K, F).value;
              forall i :: i in ids <==> 0 <= i < |sequences| && MatchesAt(sequences[i], d.kmer, d.offset)
    ensures Run(sequences, K, F).Success? ==> Ascending(Run(sequences, K, F).value.2)
    ensures Run(sequences, K, F).Success? ==> |Run(sequences, K, F).value.2| == Run(sequences, K, F).value.1.count
  {
    if Run(sequences, K, F).Success? {
      var N := |sequences|;
      var occ := Index(sequences, K).occ;
      var d := Run(sequences, K, F).value.1;
      RunDominant(sequences, K, F);
      RunSelected(sequences, K, F);
      MarksExact(sequences, K, d.kmer, d.offset);
      MatchingReadsCount(occ[d.kmer], d.offset, sequences, d.kmer, N);
      assert sequences[..N] == sequences;
    }
  }

  /** The selected indices scan the unfiltered occurrence entry of the dominant k-mer. */
  lemma RunSelected(sequences: seq<string>, K: nat, F: real)
    requires ValidInput(sequences, K)
    ensures Run(sequences, K, F).Success? ==>
              var d := Run(sequences, K, F).value.1;
              && d.kmer in Index(sequences, K).occ
              && Run(sequences, K, F).value.2 == MatchingReads(Index(sequences, K).occ[d.kmer], d.offset, |sequences|)
  {
    if Run(sequences, K, F).Success? {
      var f := Filtered(sequences, K, F).value;
      var d := MostFrequent(f);
      DominantPositive(sequences, K, F);
      assert d.kmer in f.occ;
      IndexReadBound(sequences, K);
      assert Run(sequences, K, F).value == (f, d, MatchingReads(f.occ[d.kmer], d.offset, |sequences|));
    }
  }

  /** The occurrence entry of a k-mer of length K marks read i at offset p
      exactly when read i carries it there. */
  lemma MarksExact(sequences: seq<string>, K: nat, km: string, p: nat)
    requires ValidInput(sequences, K)
    ensures km in Index(sequences, K).occ && |km| == K ==>
              forall i :: 0 <= i < |sequences| ==>
                (i in Index(sequences, K).occ[km] && p in Index(sequences, K).occ[km][i] <==> MatchesAt(sequences[i], km, p))
  {
    var idx := Index(sequences, K);
    if km in idx.occ && |km| == K {
      IndexOccurrences(sequences, K);
      forall i | 0 <= i < |sequences|
        ensures i in idx.occ[km] && p in idx.occ[km][i] <==> MatchesAt(sequences[i], km, p)
      {
        assert Recorded(idx, km, i, p) <==> MatchesAt(sequences[i], km, p);
      }
    }
  }

  /** A k-mer longer than the reads leaves nothing to count, and the run stops
      at the filter. */
  lemma RunTooLong(sequences: seq<string>, K: nat, F: real)
    requires ValidInput(sequences, K)
    requires K > |sequences[0]|
    ensures Run(sequences, K, F) == Failure(NoSurvivingKmers)
  {
    IndexTotal(sequences, K);
  }

  /** The records a successful analysis writes: one per read carrying the
      dominant k-mer at the dominant offset, in input order, each with its
      bases and qualities unchanged and the summary appended to its description. */
  lemma AnalyzeOutput(records: seq<Read>, K: nat, F: real, summary: seq<nat> -> string)
    requires K >= 1 && |records| > 0
    requires UniformLength(Sequences(records), |records[0].sequence|)
    ensures Analyze(records, K, F, summary).Success? ==>
              var a := Analyze(records, K, F, summary).value;
              && |a.output| == a.dominant.count
              && (forall t :: 0 <= t < |a.output| ==> MatchesAt(a.output[t].sequence, a.dominant.kmer, a.dominant.offset))
              && (forall t :: 0 <= t < |a.output| ==> a.output[t] == Annotate(records[a.selected[t]], summary))
              && (forall i :: 0 <= i < |records| && MatchesAt(records[i].sequence, a.dominant.kmer, a.dominant.offset) ==> i in a.selected)
  {
    if Analyze(records, K, F, summary).Success? {
      var sequences := Sequences(records);
      RunSelection(sequences, K, F);
      var a := Analyze(records, K, F, summary).value;
      forall t | 0 <= t < |a.output|
        ensures MatchesAt(a.output[t].sequence, a.dominant.kmer, a.dominant.offset)
      {
        assert a.selected[t] in a.selected;
      }
    }
  }
}
