/**
 The indexing pass visits every read in input order and, within a read, every
 start offset in ascending order (MainFastq.py lines 39-41). This module lays
 that visit out as one flat list of windows and counts windows by k-mer and
 offset.
 */
module WindowScan {
  import opened Common
  import opened Reads

  /** The window of read `read` starting at `offset`, spelling `kmer`. */
  datatype Window = Window(read: nat, offset: nat, kmer: string)

  /** The first n windows of read r (read index i), in ascending offset order. */
  function ReadWindows(r: string, i: nat, K: nat, n: nat): (ws: seq<Window>)
    requires n <= Span(|r|, K)
    ensures |ws| == n
  {
    if n == 0 then []
    else ReadWindows(r, i, K, n - 1) + [Window(i, n - 1, r[n - 1..n - 1 + K])]
  }

  /** Every window of every read, in the order the indexing pass visits them. */
  function Windows(sequences: seq<string>, K: nat, L: nat): (ws: seq<Window>)
    requires UniformLength(sequences, L)
    ensures |ws| == |sequences| * Span(L, K)
  {
    if |sequences| == 0 then []
    else
      var n := |sequences| - 1;
      Windows(sequences[..n], K, L) + ReadWindows(sequences[n], n, K, Span(L, K))
  }

  /** The k-mers of a window list, in the same order. */
  function KmersOf(ws: seq<Window>): (ks: seq<string>)
    ensures |ks| == |ws|
    ensures forall j :: 0 <= j < |ws| ==> ks[j] == ws[j].kmer
  {
    seq(|ws|, j requires 0 <= j < |ws| => ws[j].kmer)
  }

  /** Number of windows that spell km at offset q. */
  function CountWin(ws: seq<Window>, km: string, q: nat): nat
  {
    if |ws| == 0 then 0
    else
      var w := ws[|ws| - 1];
      CountWin(ws[..|ws| - 1], km, q) + (if w.kmer == km && w.offset == q then 1 else 0)
  }

  /** Number of windows that spell km, at any offset. */
  function CountKmer(ws: seq<Window>, km: string): nat
  {
    if |ws| == 0 then 0
    else CountKmer(ws[..|ws| - 1], km) + (if ws[|ws| - 1].kmer == km then 1 else 0)
  }

  /** The windows of one read are exactly its matches at offsets below n. */
  lemma {:induction false} ReadWindowsMembership(r: string, i: nat, K: nat, n: nat)
    requires n <= Span(|r|, K)
    ensures forall w :: w in ReadWindows(r, i, K, n) <==>
              w.read == i && w.offset < n && |w.kmer| == K && MatchesAt(r, w.kmer, w.offset)
  {
    if n > 0 {
      ReadWindowsMembership(r, i, K, n - 1);
    }
  }

  /** A window is visited exactly when it is an occurrence of its k-mer in its read. */
  lemma {:induction false} WindowsMembership(sequences: seq<string>, K: nat, L: nat)
    requires UniformLength(sequences, L)
    ensures forall w :: w in Windows(sequences, K, L) <==>
              w.read < |sequences| && |w.kmer| == K && MatchesAt(sequences[w.read], w.kmer, w.offset)
    ensures forall w :: w in Windows(sequences, K, L) ==> w.offset < Span(L, K)
  {
    if |sequences| > 0 {
      var n := |sequences| - 1;
      WindowsMembership(sequences[..n], K, L);
      ReadWindowsMembership(sequences[n], n, K, Span(L, K));
    }
  }

  /** No window is visited twice. */
  lemma {:induction false} WindowsDistinct(sequences: seq<string>, K: nat, L: nat)
    requires UniformLength(sequences, L)
    ensures Distinct(Windows(sequences, K, L))
  {
    if |sequences| > 0 {
      var n := |sequences| - 1;
      var a := Windows(sequences[..n], K, L);
      var b := ReadWindows(sequences[n], n, K, Span(L, K));
      WindowsDistinct(sequences[..n], K, L);
      WindowsMembership(sequences[..n], K, L);
      ReadWindowsDistinct(sequences[n], n, K, Span(L, K));
      ReadWindowsMembership(sequences[n], n, K, Span(L, K));
      forall x, y | 0 <= x < y < |a + b|
        ensures (a + b)[x] != (a + b)[y]
      {
        if x < |a| && |a| <= y {
          assert (a + b)[x] in a && (a + b)[y] in b;
        }
      }
    }
  }

  lemma {:induction false} ReadWindowsDistinct(r: string, i: nat, K: nat, n: nat)
    requires n <= Span(|r|, K)
    ensures Distinct(ReadWindows(r, i, K, n))
  {
    if n > 0 {
      ReadWindowsDistinct(r, i, K, n - 1);
      ReadWindowsMembership(r, i, K, n - 1);
    }
  }

  /** The j-th window of a read is its k-mer at offset j: the inner loop's
      offsets run 0, 1, 2, ... in step with the visit. */
  lemma {:induction false} ReadWindowsAt(r: string, i: nat, K: nat, n: nat)
    requires n <= Span(|r|, K)
    ensures forall j :: 0 <= j < n ==> ReadWindows(r, i, K, n)[j] == Window(i, j, r[j..j + K])
  {
    if n > 0 {
      ReadWindowsAt(r, i, K, n - 1);
      assert ReadWindows(r, i, K, n)[..n - 1] == ReadWindows(r, i, K, n - 1);
    }
  }

  /** Window w is visited before v: in an earlier read, or in the same read at
      a smaller offset. */
  predicate Before(w: Window, v: Window)
  {
    w.read < v.read || (w.read == v.read && w.offset < v.offset)
  }

  /** The scan visits its windows in strictly ascending (read, offset) order. */
  lemma {:induction false} WindowsOrdered(sequences: seq<string>, K: nat, L: nat)
    requires UniformLength(sequences, L)
    ensures forall x, y :: 0 <= x < y < |Windows(sequences, K, L)| ==>
              Before(Windows(sequences, K, L)[x], Windows(sequences, K, L)[y])
  {
    if |sequences| > 0 {
      var n := |sequences| - 1;
      var a := Windows(sequences[..n], K, L);
      var b := ReadWindows(sequences[n], n, K, Span(L, K));
      WindowsOrdered(sequences[..n], K, L);
      WindowsMembership(sequences[..n], K, L);
      ReadWindowsAt(sequences[n], n, K, Span(L, K));
      forall x, y | 0 <= x < y < |a + b|
        ensures Before((a + b)[x], (a + b)[y])
      {
        if y < |a| {
          assert (a + b)[x] == a[x] && (a + b)[y] == a[y];
        } else if x < |a| {
          assert (a + b)[x] in a;
        } else {
          assert (a + b)[x] == b[x - |a|] && (a + b)[y] == b[y - |a|];
        }
      }
    }
  }

  lemma {:induction false} CountWinAppend(a: seq<Window>, b: seq<Window>, km: string, q: nat)
    ensures CountWin(a + b, km, q) == CountWin(a, km, q) + CountWin(b, km, q)
  {
    if |b| == 0 {
      assert a + b == a;
    } else {
      assert (a + b)[..|a + b| - 1] == a + b[..|b| - 1];
      CountWinAppend(a, b[..|b| - 1], km, q);
    }
  }

  /** One read contributes one window at offset q exactly when it carries km there. */
  lemma {:induction false} CountReadWindows(r: string, i: nat, K: nat, n: nat, km: string, q: nat)
    requires n <= Span(|r|, K)
    requires |km| == K
    ensures CountWin(ReadWindows(r, i, K, n), km, q) == if q < n && MatchesAt(r, km, q) then 1 else 0
  {
    if n > 0 {
      var ws := ReadWindows(r, i, K, n);
      assert ws[..n - 1] == ReadWindows(r, i, K, n - 1);
      assert ws[n - 1] == Window(i, n - 1, r[n - 1..n - 1 + K]);
      CountReadWindows(r, i, K, n - 1, km, q);
    }
  }

  /** Counting visited windows by k-mer and offset counts the reads carrying that k-mer there. */
  lemma {:induction false} CountWindows(sequences: seq<string>, K: nat, L: nat, km: string, q: nat)
    requires UniformLength(sequences, L)
    requires |km| == K
    ensures CountWin(Windows(sequences, K, L), km, q) == Count(sequences, km, q)
  {
    if |sequences| > 0 {
      var n := |sequences| - 1;
      var r := sequences[n];
      CountWindows(sequences[..n], K, L, km, q);
      CountWinAppend(Windows(sequences[..n], K, L), ReadWindows(r, n, K, Span(L, K)), km, q);
      CountReadWindows(r, n, K, Span(L, K), km, q);
      assert MatchesAt(r, km, q) ==> q < Span(L, K);
    }
  }
}
