/**
 The indexing stage, `FastqAnalyzer.calculate_kmers` (MainFastq.py lines 37-53).

 The source keeps two dictionaries keyed by k-mer: an occurrence table
 (k-mer -> read index -> set of start offsets) and a positional histogram
 (k-mer -> list of counts, one per offset of a read). Both receive a new key at
 the same moment, so their iteration order is one and the same list of k-mers in
 first-seen order; `KmerIndex` holds that list beside the two maps.
 */
module Indexing {
  import opened Common
  import opened Reads
  import opened WindowScan

  /** Per read index, the set of offsets where the k-mer starts in that read. */
  type PerRead = map<nat, set<nat>>

  datatype KmerIndex = KmerIndex(
    keys: seq<string>,                 // dictionary order: first-seen order
    occ: map<string, PerRead>,         // occurrence table
    hist: map<string, seq<nat>>)       // positional histogram

  /** The key list enumerates the domain of both maps, each k-mer once. */
  ghost predicate KeysAgree(idx: KmerIndex)
  {
    && Distinct(idx.keys)
    && idx.occ.Keys == idx.hist.Keys
    && (forall k :: k in idx.hist <==> k in idx.keys)
  }

  /** Every histogram row has one cell per offset of a read (length L). */
  ghost predicate RowsOfLength(hist: map<string, seq<nat>>, L: nat)
  {
    forall k :: k in hist ==> |hist[k]| == L
  }

  /** Every k-mer of the occurrence table has at least one read index, each
      with at least one offset. */
  ghost predicate EntriesNonEmpty(occ: map<string, PerRead>)
  {
    && (forall k :: k in occ ==> occ[k] != map[])
    && (forall k, i :: k in occ && i in occ[k] ==> occ[k][i] != {})
  }

  /** Structural invariant kept by every indexing step: keys agree, rows have
      length L, and entries are non-empty. */
  ghost predicate WellFormed(idx: KmerIndex, L: nat)
  {
    && KeysAgree(idx)
    && RowsOfLength(idx.hist, L)
    && EntriesNonEmpty(idx.occ)
  }

  /** The occurrence table holds offset p for k-mer km in read i. */
  predicate Recorded(idx: KmerIndex, km: string, i: nat, p: nat)
  {
    km in idx.occ && i in idx.occ[km] && p in idx.occ[km][i]
  }

  /** The (read, offset) pairs recorded under one k-mer. */
  function Pairs(m: PerRead): set<(nat, nat)>
  {
    set i, p | i in m && p in m[i] :: (i, p)
  }

  /** Total of the histogram rows of the given keys. */
  function SumRows(keys: seq<string>, hist: map<string, seq<nat>>): nat
    requires forall k :: k in keys ==> k in hist
  {
    if |keys| == 0 then 0
    else SumRows(keys[..|keys| - 1], hist) + Sum(hist[keys[|keys| - 1]])
  }

  const Empty := KmerIndex([], map[], map[])

  /** The occurrence-table half of the loop body (lines 44-48): fetch the
      per-read entry of w.kmer, or an empty one, fetch its offset set for
      w.read, or an empty one, add w.offset and store both back. */
  function Mark(occ: map<string, PerRead>, w: Window): (r: map<string, PerRead>)
    requires EntriesNonEmpty(occ)
    ensures EntriesNonEmpty(r)
    ensures r.Keys == occ.Keys + {w.kmer}
  {
    var seqDict: PerRead := if w.kmer in occ then occ[w.kmer] else map[];
    var posFound := if w.read in seqDict then seqDict[w.read] else {};
    var entry := seqDict[w.read := posFound + {w.offset}];
    assert w.read in entry;
    occ[w.kmer := entry]
  }

  /** The histogram half of the loop body (lines 51-53): fetch the row of
      w.kmer, or a zero row of length L, and increment its cell w.offset. */
  function Bump(hist: map<string, seq<nat>>, w: Window, L: nat): (r: map<string, seq<nat>>)
    requires RowsOfLength(hist, L) && w.offset < L
    ensures RowsOfLength(r, L)
    ensures r.Keys == hist.Keys + {w.kmer}
  {
    var posArr := if w.kmer in hist then hist[w.kmer] else Zeros(L);
    hist[w.kmer := posArr[w.offset := posArr[w.offset] + 1]]
  }

  /** The dictionary order after storing km: unchanged when km is already a
      key, extended by km when it is new. */
  function AddKey(keys: seq<string>, km: string): (r: seq<string>)
    requires Distinct(keys)
    ensures Distinct(r) && km in r
    ensures r == keys || (km !in keys && r == keys + [km])
  {
    if km in keys then keys else DistinctAppend(keys, km); keys + [km]
  }

  /** One iteration of the inner loop body (lines 41-53): record offset
      `w.offset` for read `w.read` under `w.kmer`, creating the per-read entry
      and a zero row of length L when absent, and bump the row's cell. */
  function Step(idx: KmerIndex, w: Window, L: nat): (r: KmerIndex)
    requires WellFormed(idx, L)
    requires w.offset < L
    ensures WellFormed(r, L)
  {
    KmerIndex(AddKey(idx.keys, w.kmer), Mark(idx.occ, w), Bump(idx.hist, w, L))
  }

  /** Offsets of the windows ws stay below L, so each fits a row of L cells. */
  ghost predicate InRange(ws: seq<Window>, L: nat)
  {
    forall w :: w in ws ==> w.offset < L
  }

  /** The index after visiting the windows ws in order, starting from empty
      dictionaries. */
  function Build(ws: seq<Window>, L: nat): (idx: KmerIndex)
    requires InRange(ws, L)
    ensures WellFormed(idx, L)
  {
    if |ws| == 0 then Empty
    else Step(Build(ws[..|ws| - 1], L), ws[|ws| - 1], L)
  }

  /** `calculate_kmers` over reads of common length L = |sequences[0]| (line 38). */
  function Index(sequences: seq<string>, K: nat): (idx: KmerIndex)
    requires |sequences| > 0 && UniformLength(sequences, |sequences[0]|)
    requires K >= 1
    ensures WellFormed(idx, |sequences[0]|)
  {
    var L := |sequences[0]|;
    WindowsMembership(sequences, K, L);
    Build(Windows(sequences, K, L), L)
  }

  // ---------------------------------------------------------------------------
  // What a single step changes

  /** A step adds exactly the triple of its window to the occurrence table. */
  lemma StepRecorded(idx: KmerIndex, w: Window, L: nat)
    requires WellFormed(idx, L) && w.offset < L
    ensures forall km, i, p :: Recorded(Step(idx, w, L), km, i, p) <==>
              Recorded(idx, km, i, p) || (km == w.kmer && i == w.read && p == w.offset)
  {
  }

  /** A step creates the window's row when it is new and bumps exactly one
      cell, the window's offset in that row; every other cell and row is
      unchanged. */
  lemma StepHist(idx: KmerIndex, w: Window, L: nat)
    requires WellFormed(idx, L) && w.offset < L
    ensures forall km :: km in Step(idx, w, L).hist <==> km in idx.hist || km == w.kmer
    ensures forall km, q :: km in Step(idx, w, L).hist && 0 <= q < L ==>
              Step(idx, w, L).hist[km][q] ==
                (if km in idx.hist then idx.hist[km][q] else 0) + (if km == w.kmer && q == w.offset then 1 else 0)
  {
  }

  lemma PairsInsert(m: PerRead, i: nat, p: nat)
    ensures Pairs(m[i := (if i in m then m[i] else {}) + {p}]) == Pairs(m) + {(i, p)}
  {
  }

  lemma {:induction false} SumRowsFrame(keys: seq<string>, h1: map<string, seq<nat>>, h2: map<string, seq<nat>>)
    requires forall k :: k in keys ==> k in h1 && k in h2 && h1[k] == h2[k]
    ensures SumRows(keys, h1) == SumRows(keys, h2)
  {
    if |keys| > 0 {
      SumRowsFrame(keys[..|keys| - 1], h1, h2);
    }
  }

  /** Replacing one row changes the total by the difference of the row sums. */
  lemma {:induction false} SumRowsUpdate(keys: seq<string>, h: map<string, seq<nat>>, km: string, v: seq<nat>)
    requires Distinct(keys) && km in keys
    requires forall k :: k in keys ==> k in h
    ensures SumRows(keys, h[km := v]) + Sum(h[km]) == SumRows(keys, h) + Sum(v)
  {
    var n := |keys| - 1;
    if keys[n] == km {
      assert km !in keys[..n];
      SumRowsFrame(keys[..n], h[km := v], h);
    } else {
      SumRowsUpdate(keys[..n], h, km, v);
    }
  }

  // ---------------------------------------------------------------------------
  // What the whole fold computes

  /** The occurrence table records exactly the visited windows. */
  lemma {:induction false} BuildRecorded(ws: seq<Window>, L: nat)
    requires InRange(ws, L)
    ensures forall km, i, p :: Recorded(Build(ws, L), km, i, p) <==> Window(i, p, km) in ws
  {
    if |ws| > 0 {
      var n := |ws| - 1;
      var prev := Build(ws[..n], L);
      BuildRecorded(ws[..n], L);
      StepRecorded(prev, ws[n], L);
      assert Build(ws, L) == Step(prev, ws[n], L);
      forall km, i, p
        ensures Recorded(Build(ws, L), km, i, p) <==> Window(i, p, km) in ws
      {
        InSnoc(ws, Window(i, p, km));
      }
    }
  }

  lemma KmersOfSnoc(ws: seq<Window>)
    requires |ws| > 0
    ensures KmersOf(ws) == KmersOf(ws[..|ws| - 1]) + [ws[|ws| - 1].kmer]
  {
  }

  /** A step appends the window's k-mer to the key list only when it is new. */
  lemma StepKeys(idx: KmerIndex, w: Window, L: nat)
    requires WellFormed(idx, L) && w.offset < L
    ensures Step(idx, w, L).keys == if w.kmer in idx.keys then idx.keys else idx.keys + [w.kmer]
  {
  }

  /** keys lists each element of ks once, in order of first appearance in ks. */
  ghost predicate FirstSeenOrder(keys: seq<string>, ks: seq<string>)
  {
    && (forall k :: k in keys <==> k in ks)
    && (forall a, b :: 0 <= a < b < |keys| ==> IndexOf(ks, keys[a]) < IndexOf(ks, keys[b]))
  }

  /** Appending x to the stream appends it to the key list exactly when it is new. */
  lemma FirstSeenExtend(keys: seq<string>, ks: seq<string>, x: string)
    requires FirstSeenOrder(keys, ks)
    ensures FirstSeenOrder(if x in keys then keys else keys + [x], ks + [x])
  {
    var ext := ks + [x];
    forall k
      ensures k in ext <==> k in ks || k == x
    {
      InSnoc(ext, k);
      assert ext[..|ks|] == ks;
    }
    if x !in keys {
      FirstSeenAppendNew(keys, ks, x);
    } else {
      forall a, b | 0 <= a < b < |keys|
        ensures IndexOf(ext, keys[a]) < IndexOf(ext, keys[b])
      {
        IndexOfAppend(ks, x, keys[a]);
        IndexOfAppend(ks, x, keys[b]);
      }
    }
  }

  /** A new element goes last in both the stream and the key list. */
  lemma FirstSeenAppendNew(keys: seq<string>, ks: seq<string>, x: string)
    requires FirstSeenOrder(keys, ks) && x !in keys
    ensures forall a, b :: 0 <= a < b < |keys + [x]| ==> IndexOf(ks + [x], (keys + [x])[a]) < IndexOf(ks + [x], (keys + [x])[b])
  {
    var ext := ks + [x];
    var nk := keys + [x];
    forall a, b | 0 <= a < b < |nk|
      ensures IndexOf(ext, nk[a]) < IndexOf(ext, nk[b])
    {
      assert nk[a] == keys[a];
      IndexOfAppend(ks, x, nk[a]);
      if b == |keys| {
        assert nk[b] == x;
        IndexOfAppend(ks, x, x);
      } else {
        assert nk[b] == keys[b];
        IndexOfAppend(ks, x, nk[b]);
      }
    }
  }

  /** The keys are the visited k-mers, listed in order of first appearance. */
  lemma {:induction false} BuildKeys(ws: seq<Window>, L: nat)
    requires InRange(ws, L)
    ensures FirstSeenOrder(Build(ws, L).keys, KmersOf(ws))
  {
    if |ws| > 0 {
      var n := |ws| - 1;
      var prev := Build(ws[..n], L);
      var x := ws[n].kmer;
      BuildKeys(ws[..n], L);
      StepKeys(prev, ws[n], L);
      assert Build(ws, L).keys == if x in prev.keys then prev.keys else prev.keys + [x];
      KmersOfSnoc(ws);
      FirstSeenExtend(prev.keys, KmersOf(ws[..n]), x);
    }
  }

  /** Each histogram cell counts the visited windows with that k-mer and offset. */
  lemma {:induction false} BuildHist(ws: seq<Window>, L: nat)
    requires InRange(ws, L)
    ensures forall km, q :: km in Build(ws, L).hist && 0 <= q < L ==> Build(ws, L).hist[km][q] == CountWin(ws, km, q)
  {
    if |ws| > 0 {
      var n := |ws| - 1;
      var prev := Build(ws[..n], L);
      BuildHist(ws[..n], L);
      BuildKeys(ws[..n], L);
      StepHist(prev, ws[n], L);
      forall km, q | km in Build(ws, L).hist && 0 <= q < L && km !in prev.hist
        ensures CountWin(ws[..n], km, q) == 0
      {
        CountWinAbsent(ws[..n], km, q);
      }
    }
  }

  lemma {:induction false} CountWinAbsent(ws: seq<Window>, km: string, q: nat)
    requires km !in KmersOf(ws)
    ensures CountWin(ws, km, q) == 0
  {
    if |ws| > 0 {
      var n := |ws| - 1;
      assert KmersOf(ws[..n]) == KmersOf(ws)[..n];
      CountWinAbsent(ws[..n], km, q);
    }
  }

  lemma StepRowSum(idx: KmerIndex, w: Window, L: nat, km: string)
    requires WellFormed(idx, L) && w.offset < L
    requires km in Step(idx, w, L).hist
    ensures Sum(Step(idx, w, L).hist[km]) ==
              (if km in idx.hist then Sum(idx.hist[km]) else 0) + (if km == w.kmer then 1 else 0)
  {
    if km == w.kmer {
      var row := if km in idx.hist then idx.hist[km] else Zeros(L);
      SumIncrement(row, w.offset);
      SumZeros(L);
    }
  }

  /** Each row sums to the number of visited windows with that k-mer. */
  lemma {:induction false} BuildRowSums(ws: seq<Window>, L: nat)
    requires InRange(ws, L)
    ensures forall km :: CountKmer(ws, km) == if km in Build(ws, L).hist then Sum(Build(ws, L).hist[km]) else 0
  {
    if |ws| > 0 {
      var n := |ws| - 1;
      var prev := Build(ws[..n], L);
      var idx := Build(ws, L);
      BuildRowSums(ws[..n], L);
      StepHist(prev, ws[n], L);
      forall km
        ensures CountKmer(ws, km) == if km in idx.hist then Sum(idx.hist[km]) else 0
      {
        if km in idx.hist {
          StepRowSum(prev, ws[n], L, km);
        }
      }
    }
  }

  lemma StepPairs(idx: KmerIndex, w: Window, L: nat, km: string)
    requires WellFormed(idx, L) && w.offset < L
    requires km in Step(idx, w, L).occ
    ensures Pairs(Step(idx, w, L).occ[km]) ==
              (if km in idx.occ then Pairs(idx.occ[km]) else {}) + (if km == w.kmer then {(w.read, w.offset)} else {})
  {
    if km == w.kmer {
      var seqDict: PerRead := if km in idx.occ then idx.occ[km] else map[];
      PairsInsert(seqDict, w.read, w.offset);
    }
  }

  /** When no window is visited twice, the (read, offset) pairs recorded for a
      k-mer are as many as the visited windows with that k-mer. */
  lemma {:induction false} BuildPairCounts(ws: seq<Window>, L: nat)
    requires InRange(ws, L)
    requires Distinct(ws)
    ensures forall km :: CountKmer(ws, km) == if km in Build(ws, L).occ then |Pairs(Build(ws, L).occ[km])| else 0
  {
    if |ws| > 0 {
      var n := |ws| - 1;
      var prev := Build(ws[..n], L);
      var idx := Build(ws, L);
      var w := ws[n];
      assert Distinct(ws[..n]);
      BuildPairCounts(ws[..n], L);
      BuildRecorded(ws[..n], L);
      assert w !in ws[..n];
      assert !Recorded(prev, w.kmer, w.read, w.offset) by {
        assert Window(w.read, w.offset, w.kmer) == w;
      }
      assert idx == Step(prev, w, L);
      forall km
        ensures CountKmer(ws, km) == if km in idx.occ then |Pairs(idx.occ[km])| else 0
      {
        PairCountStep(prev, w, L, km);
      }
    }
  }

  /** A step that records a new triple adds one pair under its k-mer and none
      under any other. */
  lemma PairCountStep(prev: KmerIndex, w: Window, L: nat, km: string)
    requires WellFormed(prev, L) && w.offset < L
    requires !Recorded(prev, w.kmer, w.read, w.offset)
    ensures (if km in Step(prev, w, L).occ then |Pairs(Step(prev, w, L).occ[km])| else 0) ==
              (if km in prev.occ then |Pairs(prev.occ[km])| else 0) + (if km == w.kmer then 1 else 0)
  {
    var idx := Step(prev, w, L);
    if km in idx.occ {
      StepPairs(prev, w, L, km);
      if km == w.kmer {
        assert (w.read, w.offset) !in (if km in prev.occ then Pairs(prev.occ[km]) else {});
      }
    }
  }

  lemma {:induction false} SumRowsAppend(keys: seq<string>, h: map<string, seq<nat>>, km: string, v: seq<nat>)
    requires km !in keys
    requires forall k :: k in keys ==> k in h
    ensures SumRows(keys + [km], h[km := v]) == SumRows(keys, h) + Sum(v)
  {
    assert (keys + [km])[..|keys|] == keys;
    SumRowsFrame(keys, h[km := v], h);
  }

  /** One step adds one to the grand total of the histogram. */
  lemma StepGrandTotal(idx: KmerIndex, w: Window, L: nat)
    requires WellFormed(idx, L) && w.offset < L
    ensures SumRows(Step(idx, w, L).keys, Step(idx, w, L).hist) == SumRows(idx.keys, idx.hist) + 1
  {
    var row := if w.kmer in idx.hist then idx.hist[w.kmer] else Zeros(L);
    var row' := row[w.offset := row[w.offset] + 1];
    var r := Step(idx, w, L);
    assert r.hist == idx.hist[w.kmer := row'];
    SumIncrement(row, w.offset);
    if w.kmer in idx.hist {
      assert r.keys == idx.keys;
      SumRowsUpdate(idx.keys, idx.hist, w.kmer, row');
    } else {
      SumZeros(L);
      assert r.keys == idx.keys + [w.kmer];
      SumRowsAppend(idx.keys, idx.hist, w.kmer, row');
    }
  }

  /** The rows of all keys together sum to the number of visited windows. */
  lemma {:induction false} BuildGrandTotal(ws: seq<Window>, L: nat)
    requires InRange(ws, L)
    ensures SumRows(Build(ws, L).keys, Build(ws, L).hist) == |ws|
  {
    if |ws| > 0 {
      var n := |ws| - 1;
      BuildGrandTotal(ws[..n], L);
      StepGrandTotal(Build(ws[..n], L), ws[n], L);
    }
  }
}
