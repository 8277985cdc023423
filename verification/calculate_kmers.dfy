/**
 The indexing pass written as the source writes it (MainFastq.py lines 37-53):
 an outer loop over the reads, an inner loop over offsets 0 .. L - K, and in the
 body a lookup-or-create of the per-read offset set and of the zero row, then an
 update of both dictionaries.
 */
module IndexLoop {
  import opened Common
  import opened Reads
  import opened WindowScan
  import opened Indexing

  lemma BuildSnoc(ws: seq<Window>, w: Window, L: nat)
    requires InRange(ws + [w], L)
    ensures InRange(ws, L)
    ensures Build(ws + [w], L) == Step(Build(ws, L), w, L)
  {
    assert (ws + [w])[..|ws|] == ws;
  }

  lemma ReadWindowsInRange(s: string, i: nat, K: nat, n: nat, done: seq<Window>)
    requires K >= 1 && n <= Span(|s|, K)
    requires InRange(done, |s|)
    ensures InRange(done + ReadWindows(s, i, K, n), |s|)
  {
    ReadWindowsMembership(s, i, K, n);
  }

  lemma ExtendVisited(done: seq<Window>, s: string, i: nat, K: nat, p: nat)
    requires p < Span(|s|, K)
    ensures done + ReadWindows(s, i, K, p + 1) == (done + ReadWindows(s, i, K, p)) + [Window(i, p, s[p..p + K])]
  {
    var a := ReadWindows(s, i, K, p);
    var w := Window(i, p, s[p..p + K]);
    assert ReadWindows(s, i, K, p + 1) == a + [w];
    assert done + (a + [w]) == (done + a) + [w];
  }

  /** The loop state after the first p offsets of read s (index i): idx is
      the index of the windows visited before read i followed by those p. */
  ghost predicate Scanned(idx: KmerIndex, done: seq<Window>, s: string, i: nat, K: nat, p: nat)
    requires K >= 1 && p <= Span(|s|, K)
  {
    && InRange(done + ReadWindows(s, i, K, p), |s|)
    && idx == Build(done + ReadWindows(s, i, K, p), |s|)
  }

  /** One pass of the inner loop body (lines 41-53) at offset p of read s. */
  method Visit(idx0: KmerIndex, s: string, i: nat, K: nat, p: nat, ghost done: seq<Window>) returns (idx: KmerIndex)
    requires K >= 1 && p < Span(|s|, K)
    requires Scanned(idx0, done, s, i, K, p)
    ensures Scanned(idx, done, s, i, K, p + 1)
    ensures idx == Step(idx0, Window(i, p, s[p..p + K]), |s|)
  {
    var kmer := s[p..p + K];
    ReadWindowsInRange(s, i, K, p + 1, done);
    ExtendVisited(done, s, i, K, p);
    BuildSnoc(done + ReadWindows(s, i, K, p), Window(i, p, kmer), |s|);
    idx := Step(idx0, Window(i, p, kmer), |s|);
  }

  /** The inner loop over every offset of read s (index i), lines 40-53. */
  method IndexRead(idx0: KmerIndex, s: string, i: nat, K: nat, L: nat, ghost done: seq<Window>) returns (idx: KmerIndex)
    requires |s| == L && K >= 1
    requires InRange(done, L) && idx0 == Build(done, L)
    ensures InRange(done + ReadWindows(s, i, K, Span(L, K)), L)
    ensures idx == Build(done + ReadWindows(s, i, K, Span(L, K)), L)
  {
    ScannedStart(idx0, done, s, i, K);
    idx := IndexFrom(idx0, s, i, K, 0, done);
    ScannedAll(idx, done, s, i, K);
  }

  /** The inner loop of line 40 from offset p on: visit offsets p .. L - K in
      order, written as recursion on the offsets left. */
  method IndexFrom(idx0: KmerIndex, s: string, i: nat, K: nat, p: nat, ghost done: seq<Window>) returns (idx: KmerIndex)
    requires K >= 1 && p <= Span(|s|, K)
    requires Scanned(idx0, done, s, i, K, p)
    ensures Scanned(idx, done, s, i, K, Span(|s|, K))
    decreases Span(|s|, K) - p
  {
    if p == Span(|s|, K) {
      idx := idx0;
    } else {
      var next := Visit(idx0, s, i, K, p, done);
      idx := IndexFrom(next, s, i, K, p + 1, done);
    }
  }

  /** Before the first offset the state is the index of the earlier reads. */
  lemma ScannedStart(idx0: KmerIndex, done: seq<Window>, s: string, i: nat, K: nat)
    requires K >= 1 && InRange(done, |s|) && idx0 == Build(done, |s|)
    ensures Scanned(idx0, done, s, i, K, 0)
  {
    assert ReadWindows(s, i, K, 0) == [];
    assert done + [] == done;
  }

  /** After the last offset the state is the index extended by the whole read. */
  lemma ScannedAll(idx: KmerIndex, done: seq<Window>, s: string, i: nat, K: nat)
    requires K >= 1 && Scanned(idx, done, s, i, K, Span(|s|, K))
    ensures InRange(done + ReadWindows(s, i, K, Span(|s|, K)), |s|)
    ensures idx == Build(done + ReadWindows(s, i, K, Span(|s|, K)), |s|)
  {
  }

  /** The outer loop over the reads (line 39). */
  method CalculateKmers(sequences: seq<string>, K: nat) returns (idx: KmerIndex)
    requires |sequences| > 0 && UniformLength(sequences, |sequences[0]|)
    requires K >= 1
    ensures idx == Index(sequences, K)
    ensures WellFormed(idx, |sequences[0]|)
  {
    var L := |sequences[0]|;
    idx := Empty;
    var i := 0;
    while i < |sequences|
      invariant 0 <= i <= |sequences|
      invariant UniformLength(sequences[..i], L)
      invariant InRange(Windows(sequences[..i], K, L), L)
      invariant idx == Build(Windows(sequences[..i], K, L), L)
    {
      idx := IndexRead(idx, sequences[i], i, K, L, Windows(sequences[..i], K, L));
      assert sequences[..i + 1][..i] == sequences[..i];
      i := i + 1;
    }
    assert sequences[..i] == sequences;
  }
}
