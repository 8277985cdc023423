/**
 Selecting the reads to write, the loop of `FastqAnalyzer.save_fasta_output`
 (MainFastq.py lines 83-87): look up the occurrence entry of the dominant k-mer,
 walk its per-read entries in insertion order, which is ascending read index,
 and keep the reads whose offset set holds the dominant position; each kept
 record has a quality summary appended to its description.
 */
module Extraction {
  import opened Common
  import opened Reads
  import opened Indexing

  /** Strictly increasing, hence free of duplicates. */
  predicate Ascending(ids: seq<nat>)
  {
    forall a, b :: 0 <= a < b < |ids| ==> ids[a] < ids[b]
  }

  /** The read indices below n whose entry in perRead holds pos, in ascending order. */
  function MatchingReads(perRead: PerRead, pos: nat, n: nat): (ids: seq<nat>)
    ensures forall i :: i in ids <==> i < n && i in perRead && pos in perRead[i]
    ensures forall t :: 0 <= t < |ids| ==> ids[t] < n
    ensures Ascending(ids)
  {
    if n == 0 then []
    else
      var prev := MatchingReads(perRead, pos, n - 1);
      if n - 1 in perRead && pos in perRead[n - 1] then prev + [n - 1] else prev
  }

  /** The lookup of line 83 followed by the membership test of line 84.
      A k-mer with no occurrence entry stops the run: the source's `.get`
      yields None there and the iteration fails. */
  function SelectReads(occ: map<string, PerRead>, N: nat, kmer: string, pos: nat): (r: Result<seq<nat>>)
    requires forall k, i :: k in occ && i in occ[k] ==> i < N
    ensures r.Failure? <==> kmer !in occ
    ensures r.Failure? ==> r.error == NoData
    ensures r.Success? ==> Ascending(r.value)
    ensures r.Success? ==> forall i :: i in r.value <==> i in occ[kmer] && pos in occ[kmer][i]
  {
    if kmer !in occ then Failure(NoData)
    else Success(MatchingReads(occ[kmer], pos, N))
  }

  /** The record fetched at line 85 with the summary of its quality scores
      appended to its description (line 86); `summary` stands for the formatted mean. */
  function Annotate(rec: Read, summary: seq<nat> -> string): (out: Read)
    ensures out.sequence == rec.sequence && out.quality == rec.quality
    ensures |out.description| == |rec.description| + |summary(rec.quality)|
    ensures out.description[..|rec.description|] == rec.description
  {
    rec.(description := rec.description + summary(rec.quality))
  }

  /** The output list built at lines 82 and 87 and written at line 89: the
      selected records, annotated, in selection order. */
  function Output(records: seq<Read>, ids: seq<nat>, summary: seq<nat> -> string): (out: seq<Read>)
    requires forall t :: 0 <= t < |ids| ==> ids[t] < |records|
    ensures |out| == |ids|
    ensures forall t :: 0 <= t < |ids| ==> out[t].sequence == records[ids[t]].sequence
    ensures forall t :: 0 <= t < |ids| ==> out[t].quality == records[ids[t]].quality
  {
    seq(|ids|, t requires 0 <= t < |ids| => Annotate(records[ids[t]], summary))
  }

  /** When the per-read entries mark exactly the reads that carry km at pos,
      the selection has one entry per such read. */
  lemma {:induction false} MatchingReadsCount(perRead: PerRead, pos: nat, sequences: seq<string>, km: string, n: nat)
    requires n <= |sequences|
    requires forall i :: 0 <= i < |sequences| ==> (i in perRead && pos in perRead[i] <==> MatchesAt(sequences[i], km, pos))
    ensures |MatchingReads(perRead, pos, n)| == Count(sequences[..n], km, pos)
  {
    if n > 0 {
      MatchingReadsCount(perRead, pos, sequences, km, n - 1);
      assert sequences[..n][..n - 1] == sequences[..n - 1];
    }
  }
}
