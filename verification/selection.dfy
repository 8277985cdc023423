/**
 Choosing the dominant k-mer and position, `FastqAnalyzer.find_most_frequent_kmer`
 (MainFastq.py lines 72-79): scan the histogram rows in dictionary order and,
 within a row, the cells in offset order; a cell replaces the current best only
 when it is strictly larger. The best starts as the empty k-mer at offset 0 with
 count 0 (the constructor defaults of lines 25-26).
 */
module Selection {
  import opened Common
  import opened Indexing

  /** The current best cell: its k-mer, its offset and its count. */
  datatype Best = Best(kmer: string, offset: nat, count: nat)

  /** The starting value of the scan. */
  const Unset := Best("", 0, 0)

  /** Every cell of the rows of keys is at most c. */
  ghost predicate Dominates(keys: seq<string>, hist: map<string, seq<nat>>, c: nat)
    requires forall k :: k in keys ==> k in hist
  {
    forall j, q :: 0 <= j < |keys| && 0 <= q < |hist[keys[j]]| ==> hist[keys[j]][q] <= c
  }

  /** b names a positive cell, and every cell the scan visits before it (earlier
      rows, then earlier offsets of its own row) is strictly smaller. */
  ghost predicate IsFirstMax(keys: seq<string>, hist: map<string, seq<nat>>, b: Best)
    requires forall k :: k in keys ==> k in hist
  {
    && b.count > 0
    && b.kmer in keys
    && b.offset < |hist[b.kmer]|
    && hist[b.kmer][b.offset] == b.count
    && (forall j, q :: 0 <= j < IndexOf(keys, b.kmer) && 0 <= q < |hist[keys[j]]| ==> hist[keys[j]][q] < b.count)
    && (forall q :: 0 <= q < b.offset ==> hist[b.kmer][q] < b.count)
  }

  /** The inner loop of lines 75-79 over the first n cells of one row. */
  function ScanRow(km: string, row: seq<nat>, n: nat, acc: Best): (r: Best)
    requires n <= |row|
    ensures r.count >= acc.count
    ensures forall q :: 0 <= q < n ==> row[q] <= r.count
    ensures r == acc || (r.kmer == km && r.offset < n && row[r.offset] == r.count && r.count > acc.count
                         && forall q :: 0 <= q < r.offset ==> row[q] < r.count)
  {
    if n == 0 then acc
    else
      var b := ScanRow(km, row, n - 1, acc);
      if row[n - 1] > b.count then Best(km, n - 1, row[n - 1]) else b
  }

  /** The outer loop of lines 74-79 over the rows, in dictionary order. The
      result is the first cell of maximal count in scan order, or the starting
      value when every cell is zero. */
  function ScanKeys(keys: seq<string>, hist: map<string, seq<nat>>): (r: Best)
    requires Distinct(keys)
    requires forall k :: k in keys ==> k in hist
    ensures Dominates(keys, hist, r.count)
    ensures r.count == 0 ==> r == Unset
    ensures r.count > 0 ==> IsFirstMax(keys, hist, r)
  {
    if |keys| == 0 then Unset
    else
      var n := |keys| - 1;
      var k := keys[n];
      var b := ScanKeys(keys[..n], hist);
      var r := ScanRow(k, hist[k], |hist[k]|, b);
      ScanKeysStep(keys, hist, b, r);
      r
  }

  /** The step from keys[..n] to keys: the facts about the scan of the prefix
      carry over to the scan of the whole list. */
  lemma ScanKeysStep(keys: seq<string>, hist: map<string, seq<nat>>, b: Best, r: Best)
    requires |keys| > 0 && Distinct(keys)
    requires forall k :: k in keys ==> k in hist
    requires Dominates(keys[..|keys| - 1], hist, b.count)
    requires b.count == 0 ==> b == Unset
    requires b.count > 0 ==> IsFirstMax(keys[..|keys| - 1], hist, b)
    requires r == ScanRow(keys[|keys| - 1], hist[keys[|keys| - 1]], |hist[keys[|keys| - 1]]|, b)
    ensures Dominates(keys, hist, r.count)
    ensures r.count == 0 ==> r == Unset
    ensures r.count > 0 ==> IsFirstMax(keys, hist, r)
  {
    DominatesStep(keys, hist, b, r);
    if r.count > 0 {
      if r == b {
        FirstMaxKept(keys, hist, b);
      } else {
        FirstMaxNew(keys, hist, b, r);
      }
    }
  }

  lemma DominatesStep(keys: seq<string>, hist: map<string, seq<nat>>, b: Best, r: Best)
    requires |keys| > 0
    requires forall k :: k in keys ==> k in hist
    requires Dominates(keys[..|keys| - 1], hist, b.count)
    requires r == ScanRow(keys[|keys| - 1], hist[keys[|keys| - 1]], |hist[keys[|keys| - 1]]|, b)
    ensures Dominates(keys, hist, r.count)
  {
    var n := |keys| - 1;
    forall j, q | 0 <= j < |keys| && 0 <= q < |hist[keys[j]]|
      ensures hist[keys[j]][q] <= r.count
    {
      if j < n {
        assert keys[j] == keys[..n][j];
      }
    }
  }

  /** A first maximal cell of the prefix stays one when a row is appended. */
  lemma FirstMaxKept(keys: seq<string>, hist: map<string, seq<nat>>, b: Best)
    requires |keys| > 0 && Distinct(keys)
    requires forall k :: k in keys ==> k in hist
    requires IsFirstMax(keys[..|keys| - 1], hist, b)
    ensures IsFirstMax(keys, hist, b)
  {
    var n := |keys| - 1;
    IndexOfPrefix(keys, b.kmer);
    forall j, q | 0 <= j < IndexOf(keys, b.kmer) && 0 <= q < |hist[keys[j]]|
      ensures hist[keys[j]][q] < b.count
    {
      assert keys[j] == keys[..n][j];
    }
  }

  /** A cell of the appended row that beats every cell of the prefix, and
      every earlier cell of its row, is a first maximal cell. */
  lemma FirstMaxNew(keys: seq<string>, hist: map<string, seq<nat>>, b: Best, r: Best)
    requires |keys| > 0 && Distinct(keys)
    requires forall k :: k in keys ==> k in hist
    requires Dominates(keys[..|keys| - 1], hist, b.count)
    requires r == ScanRow(keys[|keys| - 1], hist[keys[|keys| - 1]], |hist[keys[|keys| - 1]]|, b)
    requires r != b
    ensures IsFirstMax(keys, hist, r)
  {
    var n := |keys| - 1;
    var k := keys[n];
    assert k !in keys[..n];
    IndexOfPrefix(keys, k);
    forall j, q | 0 <= j < IndexOf(keys, k) && 0 <= q < |hist[keys[j]]|
      ensures hist[keys[j]][q] < r.count
    {
      assert keys[j] == keys[..n][j];
    }
  }

  /** `find_most_frequent_kmer` on the (filtered) index. */
  function MostFrequent(idx: KmerIndex): (r: Best)
    requires KeysAgree(idx)
    ensures Dominates(idx.keys, idx.hist, r.count)
    ensures r.count == 0 ==> r == Unset
    ensures r.count > 0 ==> IsFirstMax(idx.keys, idx.hist, r)
  {
    ScanKeys(idx.keys, idx.hist)
  }

  /** The contract of ScanKeys pins its result down: any value that dominates
      every cell and is either the starting value or a first maximal cell is
      the scan's result. */
  lemma FirstMaxUnique(keys: seq<string>, hist: map<string, seq<nat>>, b: Best)
    requires Distinct(keys)
    requires forall k :: k in keys ==> k in hist
    requires Dominates(keys, hist, b.count)
    requires b == Unset || IsFirstMax(keys, hist, b)
    ensures b == ScanKeys(keys, hist)
  {
    var r := ScanKeys(keys, hist);
    if b.count > 0 && r.count > 0 {
      var jb := IndexOf(keys, b.kmer);
      var jr := IndexOf(keys, r.kmer);
      assert hist[keys[jr]][r.offset] <= b.count;
      assert hist[keys[jb]][b.offset] <= r.count;
      assert b.count == r.count;
      assert jb == jr;
      assert b.kmer == r.kmer;
      assert b.offset == r.offset;
    }
  }

  /** When the very first cell of the scan already reaches the count of a
      first maximal cell, that first cell is the one. */
  lemma FirstMaxAtHead(keys: seq<string>, hist: map<string, seq<nat>>, b: Best)
    requires Distinct(keys)
    requires forall k :: k in keys ==> k in hist
    requires IsFirstMax(keys, hist, b)
    requires |keys| > 0 && |hist[keys[0]]| > 0 && hist[keys[0]][0] == b.count
    ensures b.kmer == keys[0] && b.offset == 0
  {
    var j := IndexOf(keys, b.kmer);
    assert !(0 < j);
    assert keys[0] == b.kmer;
  }

  /** A row with a positive total makes the dominant count positive. */
  lemma MostFrequentPositive(idx: KmerIndex, k: string)
    requires KeysAgree(idx)
    requires k in idx.keys && Sum(idx.hist[k]) > 0
    ensures MostFrequent(idx).count > 0
  {
    SumPositive(idx.hist[k]);
    var q :| 0 <= q < |idx.hist[k]| && idx.hist[k][q] > 0;
    var j := IndexOf(idx.keys, k);
    assert idx.hist[idx.keys[j]][q] > 0;
  }

  /** The inner loop of lines 75-79 over one row, continuing from the best so far. */
  method ScanRowLoop(kmer: string, positions: seq<nat>, kmerMax0: string, kmerMaxPos0: nat, maxCount0: nat)
    returns (kmerMax: string, kmerMaxPos: nat, maxCount: nat)
    ensures Best(kmerMax, kmerMaxPos, maxCount) == ScanRow(kmer, positions, |positions|, Best(kmerMax0, kmerMaxPos0, maxCount0))
  {
    kmerMax, kmerMaxPos, maxCount := kmerMax0, kmerMaxPos0, maxCount0;
    var i := 0;
    while i < |positions|
      invariant 0 <= i <= |positions|
      invariant Best(kmerMax, kmerMaxPos, maxCount) == ScanRow(kmer, positions, i, Best(kmerMax0, kmerMaxPos0, maxCount0))
    {
      if positions[i] > maxCount {
        maxCount := positions[i];
        kmerMax := kmer;
        kmerMaxPos := i;
      }
      i := i + 1;
    }
  }

  /** The nested loops of lines 72-79 as the source writes them. */
  method FindMostFrequent(idx: KmerIndex) returns (kmerMax: string, kmerMaxPos: nat, maxCount: nat)
    requires KeysAgree(idx)
    ensures Best(kmerMax, kmerMaxPos, maxCount) == MostFrequent(idx)
    ensures Dominates(idx.keys, idx.hist, maxCount)
    ensures maxCount > 0 ==> IsFirstMax(idx.keys, idx.hist, Best(kmerMax, kmerMaxPos, maxCount))
  {
    kmerMax, kmerMaxPos, maxCount := "", 0, 0;
    var j := 0;
    while j < |idx.keys|
      invariant 0 <= j <= |idx.keys|
      invariant Distinct(idx.keys[..j])
      invariant Best(kmerMax, kmerMaxPos, maxCount) == ScanKeys(idx.keys[..j], idx.hist)
    {
      var kmer := idx.keys[j];
      kmerMax, kmerMaxPos, maxCount := ScanRowLoop(kmer, idx.hist[kmer], kmerMax, kmerMaxPos, maxCount);
      ScanPrefix(idx.keys, idx.hist, j + 1);
      j := j + 1;
    }
    assert idx.keys[..j] == idx.keys;
  }

  /** Scanning keys[..n] is scanning keys[..n - 1] and then row keys[n - 1]. */
  lemma ScanPrefix(keys: seq<string>, hist: map<string, seq<nat>>, n: nat)
    requires 0 < n <= |keys| && Distinct(keys)
    requires forall k :: k in keys ==> k in hist
    ensures Distinct(keys[..n])
    ensures ScanKeys(keys[..n], hist) ==
              ScanRow(keys[n - 1], hist[keys[n - 1]], |hist[keys[n - 1]]|, ScanKeys(keys[..n - 1], hist))
  {
    assert keys[..n][..n - 1] == keys[..n - 1];
  }
}
