/**
 Reads and windows over them: what it means for a k-mer to occur in a read at an
 offset, how many offsets a read of length L offers to a k-mer of length K, and
 how many reads carry a given k-mer at a given offset.
 */
module Reads {

  /** One sequenced fragment: its bases, one quality score per base, and a label. */
  datatype Read = Read(sequence: string, quality: seq<nat>, description: string)

  /** The bases of every record, in input order. */
  function Sequences(records: seq<Read>): (sequences: seq<string>)
    ensures |sequences| == |records|
    ensures forall i :: 0 <= i < |records| ==> sequences[i] == records[i].sequence
  {
    seq(|records|, i requires 0 <= i < |records| => records[i].sequence)
  }

  /** Every read has length L. */
  predicate UniformLength(sequences: seq<string>, L: nat)
  {
    forall i :: 0 <= i < |sequences| ==> |sequences[i]| == L
  }

  /** The window of read r starting at offset p spells km. */
  predicate MatchesAt(r: string, km: string, p: nat)
  {
    p + |km| <= |r| && r[p..p + |km|] == km
  }

  /** Number of start offsets the scan visits in a read of length L:
      the range 0 .. L - K, empty when K exceeds L. */
  function Span(L: nat, K: nat): nat
  {
    if K <= L then L - K + 1 else 0
  }

  /** The denominator of the frequency test, computed as the source does:
      (L - K + 1) * N, which is not clamped at zero. */
  function TotalPositions(N: nat, L: nat, K: nat): int
  {
    (L - K + 1) * N
  }

  /** At least one read and a k-mer that fits make the denominator positive. */
  lemma TotalPositionsPositive(N: nat, L: nat, K: nat)
    requires N > 0 && K <= L
    ensures TotalPositions(N, L, K) >= N
  {
  }

  /** Number of reads whose window at offset p spells km. */
  function Count(sequences: seq<string>, km: string, p: nat): (c: nat)
    ensures c <= |sequences|
  {
    if |sequences| == 0 then 0
    else Count(sequences[..|sequences| - 1], km, p) + (if MatchesAt(sequences[|sequences| - 1], km, p) then 1 else 0)
  }

  /** A window that cannot fit into any read is counted nowhere. */
  lemma {:induction false} CountTooLong(sequences: seq<string>, L: nat, km: string, p: nat)
    requires UniformLength(sequences, L)
    requires p + |km| > L
    ensures Count(sequences, km, p) == 0
  {
    if |sequences| > 0 {
      CountTooLong(sequences[..|sequences| - 1], L, km, p);
    }
  }
}
