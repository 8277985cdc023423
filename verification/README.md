# K-mer analysis core of FastqAnalyzer, in Dafny

This project models the analysis core of `FastqAnalyzer` (`Progetto/MainFastq.py`) and proves
properties about it. The core takes the reads of a FASTQ file, a k-mer length K and a frequency
threshold F, and runs four stages in a fixed order:

1. **Indexing** (`calculate_kmers`). A window of length K slides over every read. The pass fills an
   occurrence table (k-mer → read index → offsets) and a positional histogram (k-mer → one count per
   offset of a read).
2. **Frequency filtering** (`filter_kmers_by_frequency`). A k-mer is kept when its total count,
   divided by N·(L−K+1), is at least F. The stage fails when no k-mer is kept.
3. **Dominant selection** (`find_most_frequent_kmer`). A strict `>` scan over the rows, in
   dictionary order, and over the offsets of each row picks the first cell of maximal count.
4. **Extraction** (the loop of `save_fasta_output`). It keeps the reads that carry the dominant k-mer
   at the dominant offset, and appends a quality summary to each record's description.

Modules, one file each:

| file | module | contents |
|---|---|---|
| `common.dfy` | `Common` | error kinds, `Result`, sums, `Distinct`, `IndexOf` |
| `reads.dfy` | `Reads` | records, `MatchesAt`, `Span`, `TotalPositions`, `Count` |
| `windows.dfy` | `WindowScan` | the scan order as a flat list of windows |
| `indexing.dfy` | `Indexing` | `KmerIndex` (key order + both maps), `Step`, `Build`, `Index` |
| `index_properties.dfy` | `IndexProperties` | what the index holds, stated over the reads |
| `calculate_kmers.dfy` | `IndexLoop` | the loops of `calculate_kmers` (the outer one as a `while` loop, the inner one as recursion over the offsets), proved equal to `Index` |
| `filtering.dfy` | `Filtering` | the frequency filter and its order, idempotence and monotonicity |
| `selection.dfy` | `Selection` | the argmax scan, its loops, and its tie-break |
| `extraction.dfy` | `Extraction` | read selection and record annotation |
| `pipeline.dfy` | `Pipeline` | the stages chained, and end-to-end properties over the reads |
| `scenario.dfy` | `Scenario` | a worked run on three reads, pinning down the tie-break |

Python dictionaries are modelled as Dafny maps together with one key sequence in first-seen
(insertion) order. The occurrence table and the histogram always receive a new key in the same
iteration, so one key sequence serves both. The per-read inner dictionary is filled in ascending
read order, so its iteration order is ascending read index. The read-selection loop therefore scans
read indices upward.

The filter test `sum / total >= F` is stated with the division cleared, as
`sum >= F * total` over exact reals. `Filtering.KeepIsRatioTest` proves that the two agree when
`total > 0`. The filter is only called with `total > 0` when a key exists (`Pipeline.IndexDenominator`),
so the source's division by zero cannot happen.

## Model

| member | source | states |
|---|---|---|
| `Indexing.Step` | Progetto/MainFastq.py:41-53 | one pass of the loop body keeps the index well formed: the key list enumerates both maps once each, every row has L cells, and every entry is non-empty |
| `Indexing.Mark` | Progetto/MainFastq.py:44-48 | recording a window in the occurrence table adds its k-mer as a key and leaves no k-mer and no read with an empty entry |
| `Indexing.Bump` | Progetto/MainFastq.py:50-53 | counting a window in the positional table adds its k-mer as a key and keeps every row L cells long |
| `Indexing.AddKey` | Progetto/MainFastq.py:48-53 | storing a k-mer keeps the dictionary key order unchanged when the k-mer is already a key, and appends it last when it is new; the order stays duplicate-free and holds the k-mer |
| `Indexing.StepRecorded` | Progetto/MainFastq.py:43-48 | a step adds exactly the triple (k-mer, read, offset) of its window to the occurrence table and removes nothing |
| `Indexing.StepHist` | Progetto/MainFastq.py:50-53 | a step creates the window's row when the k-mer is new and increments exactly the cell at the window's offset; every other cell and row is unchanged |
| `Indexing.StepKeys` | Progetto/MainFastq.py:44-53 | a step appends the window's k-mer to the key order only when it is new, as dictionary insertion does |
| `Indexing.Build` | Progetto/MainFastq.py:39-53 | running the loop body over any list of in-range windows, from empty dictionaries, yields a well-formed index |
| `Indexing.Index` | Progetto/MainFastq.py:37-53 | the indexing pass yields a well-formed index whose rows have the length of the first read |
| `Indexing.BuildRecorded` | Progetto/MainFastq.py:39-48 | the occurrence table records (k-mer, read, offset) exactly when that window was visited |
| `Indexing.BuildKeys` | Progetto/MainFastq.py:39-53 | the key list holds the visited k-mers, each once, in the order the scan first meets them |
| `Indexing.BuildHist` | Progetto/MainFastq.py:50-53 | every histogram cell counts the visited windows with that k-mer and offset |
| `Indexing.BuildRowSums` | Progetto/MainFastq.py:50-53 | a row sums to the number of visited windows with that k-mer |
| `Indexing.BuildPairCounts` | Progetto/MainFastq.py:43-48 | for duplicate-free windows, the recorded (read, offset) pairs of a k-mer number its visited windows |
| `Indexing.BuildGrandTotal` | Progetto/MainFastq.py:50-53 | all rows together sum to the number of visited windows |
| `WindowScan.ReadWindows` | Progetto/MainFastq.py:40-41 | the inner loop over the first n offsets of one read visits exactly n windows |
| `WindowScan.Windows` | Progetto/MainFastq.py:39-41 | the nested loops over N reads of length L visit N·(L−K+1) windows |
| `WindowScan.ReadWindowsAt` | Progetto/MainFastq.py:40-41 | the j-th window visited in a read is that read's k-mer at offset j, so the offsets run 0, 1, 2, … in order |
| `WindowScan.WindowsOrdered` | Progetto/MainFastq.py:39-41 | the scan visits windows in strictly ascending (read, offset) order: reads in input order, and within a read, offsets ascending |
| `WindowScan.WindowsMembership` | Progetto/MainFastq.py:39-42 | the scan visits a window exactly when its read spells its k-mer at its offset, and every offset is at most L−K |
| `WindowScan.WindowsDistinct` | Progetto/MainFastq.py:39-41 | the scan visits no window twice |
| `WindowScan.CountWindows` | Progetto/MainFastq.py:39-42 | the visited windows with a given k-mer and offset number the reads carrying that k-mer there |
| `IndexProperties.IndexOccurrences` | Progetto/MainFastq.py:39-48 | an entry (k-mer, i, p) is recorded if and only if i < N, the k-mer has length K, and read i spells it at p; all read indices are below N |
| `IndexProperties.IndexKeys` | Progetto/MainFastq.py:39-53 | the index has a row for exactly the length-K k-mers that occur in some read |
| `IndexProperties.IndexHistogram` | Progetto/MainFastq.py:40-53 | every row has length L, cell q counts the reads carrying the k-mer at q, and cells past L−K are zero |
| `IndexProperties.IndexKeyOrder` | Progetto/MainFastq.py:39-53 | the dictionary order of the index is the first-seen order of the scan |
| `IndexProperties.IndexConsistency` | Progetto/MainFastq.py:39-53 | each row sums to the number of (read, offset) pairs recorded for its k-mer, and that number is positive |
| `IndexProperties.IndexTotal` | Progetto/MainFastq.py:38-56 | when K ≤ L all rows sum to N·(L−K+1), the filter's denominator; when K > L the index is empty |
| `IndexLoop.Visit` | Progetto/MainFastq.py:41-53 | one pass of the inner loop body extends the index by exactly the window at that offset, and the visited windows stay within the row length |
| `IndexLoop.IndexRead` | Progetto/MainFastq.py:40-53 | the inner loop over offsets 0..L−K extends the index by the windows of one read |
| `IndexLoop.IndexFrom` | Progetto/MainFastq.py:40-53 | visiting the offsets from p up to L−K in order extends the index by exactly the remaining windows of the read, all within the row length |
| `IndexLoop.CalculateKmers` | Progetto/MainFastq.py:37-53 | the nested loops compute the index of the reads |
| `Filtering.KeepIsRatioTest` | Progetto/MainFastq.py:61-62 | for a positive denominator, the cleared test is the inclusive ratio test `sum / total >= F` |
| `Filtering.KeptKeys` | Progetto/MainFastq.py:60-64 | a key is kept if and only if it is in the index and passes the test; no key is kept twice |
| `Filtering.KeptKeysOrder` | Progetto/MainFastq.py:60-64 | the kept keys keep their relative dictionary order |
| `Filtering.Filter` | Progetto/MainFastq.py:55-70 | the filter fails with NoSurvivingKmers if and only if no key passes; otherwise it keeps exactly the passing keys, copies their rows and entries unchanged, and returns a non-empty index |
| `Filtering.FilterKeepsOrder` | Progetto/MainFastq.py:59-64 | the surviving keys are a subsequence of the dictionary order |
| `Filtering.FilterWellFormed` | Progetto/MainFastq.py:59-70 | the filtered dictionaries keep the index invariant: the key order lists the keys of both maps once each, every row keeps its L cells, and every entry stays non-empty |
| `Filtering.FilterAllKept` | Progetto/MainFastq.py:59-70 | an index whose keys all pass comes through the filter unchanged |
| `Filtering.FilterIdempotent` | Progetto/MainFastq.py:55-70 | filtering a filtered index with the same F changes nothing |
| `Filtering.FilterMonotone` | Progetto/MainFastq.py:60-64 | if F1 ≤ F2 and filtering with F2 succeeds, filtering with F1 succeeds and keeps a superset |
| `Selection.ScanRow` | Progetto/MainFastq.py:75-79 | the row scan never lowers the best count, ends at least every cell it saw, and either leaves the best unchanged or moves it to the first cell of maximal count in the row, which beats the previous best |
| `Selection.ScanKeys` | Progetto/MainFastq.py:72-79 | the scan's count is at least every cell; a zero count leaves the empty k-mer at offset 0; a positive count names the first maximal cell in key order, then offset order |
| `Selection.MostFrequent` | Progetto/MainFastq.py:72-79 | `find_most_frequent_kmer` on an index: maximal count, first maximal cell, defaults when every cell is zero |
| `Selection.FirstMaxUnique` | Progetto/MainFastq.py:72-79 | the scan's contract determines its result: any value meeting it is the scan's result |
| `Selection.MostFrequentPositive` | Progetto/MainFastq.py:72-79 | a row with a positive sum makes the dominant count positive |
| `Selection.FirstMaxAtHead` | Progetto/MainFastq.py:74-79 | ties go to the earlier cell: when the very first cell of the scan reaches the maximal count, the strict `>` comparison never replaces it |
| `Selection.ScanRowLoop` | Progetto/MainFastq.py:75-79 | the inner loop computes the row scan from the best so far |
| `Selection.FindMostFrequent` | Progetto/MainFastq.py:72-79 | the nested loops return a count at least every cell and the first maximal cell |
| `Extraction.MatchingReads` | Progetto/MainFastq.py:83-84 | the selected read indices are exactly those below n whose offset set holds the position, ascending and below n |
| `Extraction.SelectReads` | Progetto/MainFastq.py:83-84 | the lookup fails with NoData if and only if the k-mer has no entry; otherwise it selects, in ascending order, the reads whose offsets hold the position |
| `Extraction.MatchingReadsCount` | Progetto/MainFastq.py:83-84 | when the entries mark exactly the reads carrying the k-mer at the position, the selection has one index per such read |
| `Extraction.Annotate` | Progetto/MainFastq.py:85-86 | an annotated record keeps its bases and qualities, and its description starts with the old one and grows by the summary |
| `Extraction.Output` | Progetto/MainFastq.py:82-87 | the output lists one record per selected index, in order, with that read's bases and qualities |
| `Pipeline.Analyze` | Progetto/MainFastq.py:28-31 | the run fails with EmptyInput if and only if there are no records |
| `Pipeline.Run` | Progetto/MainFastq.py:55-87 | a failing run fails with NoSurvivingKmers or NoData |
| `Pipeline.Filtered` | Progetto/MainFastq.py:55-70 | the filtered index is non-empty and its entries are those of the full index |
| `Pipeline.IndexDenominator` | Progetto/MainFastq.py:56 | the filter's denominator is positive whenever the index has a key |
| `Pipeline.IndexReadBound` | Progetto/MainFastq.py:39-48 | every read index in the occurrence table names a read |
| `Pipeline.IndexProfile` | Progetto/MainFastq.py:40-53 | each histogram row is its k-mer's per-offset read count |
| `Pipeline.SurvivorsExact` | Progetto/MainFastq.py:56-64 | a k-mer survives the filter if and only if it has length K, occurs in a read, and its occurrences reach F·N·(L−K+1) |
| `Pipeline.FilteredExact` | Progetto/MainFastq.py:55-64 | the filtered rows are exactly the profiles of the surviving k-mers |
| `Pipeline.DominantPositive` | Progetto/MainFastq.py:72-79 | after a successful filter the dominant count is positive |
| `Pipeline.RunOutcome` | Progetto/MainFastq.py:55-87 | a run fails if and only if no k-mer survives, and then with NoSurvivingKmers; the NoData lookup failure cannot happen |
| `Pipeline.AnalyzeOutcome` | Progetto/MainFastq.py:55-87 | on non-empty input the run fails if and only if no k-mer survives, and then with NoSurvivingKmers |
| `Pipeline.RunDominant` | Progetto/MainFastq.py:72-79 | the dominant cell is a surviving k-mer at an offset inside the reads, its count is the number of reads carrying it there, and no surviving k-mer is carried by more reads at any offset |
| `Pipeline.RunBest` | Progetto/MainFastq.py:55-79 | a successful run comes from a successful filter and reports the dominant cell of the filtered index |
| `Pipeline.DominantCell` | Progetto/MainFastq.py:72-79 | after a successful filter the dominant cell names a surviving k-mer, an offset inside the reads, and the number of reads carrying that k-mer there |
| `Pipeline.DominantMax` | Progetto/MainFastq.py:72-79 | after a successful filter no surviving k-mer is carried by more reads, at any offset, than the dominant count |
| `Pipeline.RunSelected` | Progetto/MainFastq.py:83-84 | the selection scans the unfiltered occurrence entry of the dominant k-mer |
| `Pipeline.MarksExact` | Progetto/MainFastq.py:39-48 | the occurrence entry of a length-K k-mer marks read i at offset p exactly when read i carries it there |
| `Pipeline.RunSelection` | Progetto/MainFastq.py:83-87 | the selected reads are exactly those carrying the dominant k-mer at the dominant offset, in ascending order, and they number the dominant count |
| `Pipeline.RunTooLong` | Progetto/MainFastq.py:38-40 | a k-mer longer than the reads makes the run fail with NoSurvivingKmers |
| `Pipeline.AnalyzeOutput` | Progetto/MainFastq.py:82-87 | the written records number the dominant count, all carry the dominant k-mer at the dominant offset, each is the annotated input record, and no carrying read is missed |
| `Scenario.WindowsHead` | Progetto/MainFastq.py:39-41 | the scan visits the first read's prefix of length K first |
| `Scenario.FirstKey` | Progetto/MainFastq.py:39-53 | the first k-mer of the first read is the first key of both dictionaries |
| `Scenario.SubsequenceHead` | Progetto/MainFastq.py:60-64 | a filtered key list that keeps the first key starts with it |
| `Scenario.SurvivorKept` | Progetto/MainFastq.py:55-64 | a k-mer that passes the frequency test on valid input is among the filtered keys |
| `Scenario.FilteredHead` | Progetto/MainFastq.py:39-64 | when the first window of the first read passes the frequency test, it is the first filtered key |
| `Scenario.SampleSurvivor` | Progetto/MainFastq.py:55-64 | on reads AAATT, AATTT, AAATT with K = 3 and F = 0.1, AAA survives the filter |
| `Scenario.SampleFiltered` | Progetto/MainFastq.py:55-70 | on the same reads the filter succeeds, AAA stays the first key, and its offset-0 cell holds 2 |
| `Scenario.SampleDominantCount` | Progetto/MainFastq.py:72-79 | on the same reads the dominant count is 2, since no 3-mer appears at one offset in all three reads |
| `Scenario.SampleDominant` | Progetto/MainFastq.py:72-79 | on the same reads AAA at offset 0 wins the three-way tie at count 2 (with AAT at 1 and ATT at 2), because it is scanned first |
| `Scenario.SampleSelection` | Progetto/MainFastq.py:83-87 | on the same reads exactly reads 0 and 2 are written, in that order |
| `Reads.Sequences` | Progetto/MainFastq.py:34 | the read list has one entry per record, and entry i is the bases of record i |
| `Reads.CountTooLong` | Progetto/MainFastq.py:50-52 | no read carries a window that does not fit into it, so such a count is zero |
| `Reads.TotalPositionsPositive` | Progetto/MainFastq.py:56 | with at least one read and K ≤ L the denominator is at least N |

## Left out

- `load_fastq` and `SeqIO.write` (lines 28-35, 89) are file I/O through Biopython. The records arrive as a parameter. Only the empty-file error of lines 30-31 is modelled.
- An empty file is reported by `Pipeline.Analyze` as a single `Failure(EmptyInput)`. In the source the `ValueError` of line 31 is raised inside the worker thread, does not stop the main thread, and the run then fails at line 56 with an `IndexError` on `self.sequences[0]`. The model abstracts both into one error outcome and does not model which exception surfaces.
- Extraction.Annotate: the appended text is a parameter `summary` of the quality scores, not the formatted `statistics.mean` of line 86. The float mean and its two-decimal formatting are not modelled.
- The plotting methods (lines 91-118) and the `__main__` block (lines 123-150) are left out. They use matplotlib, an interactive prompt loop, a worker thread, liveness polling and `os.system`. The thread only runs loading and indexing before everything else, so the model runs the stages in sequence.
- `Progetto/ArgumentParser.py` and `Progetto/Animations.py` are not part of this model. The argument checks only feed preconditions: `K >= 1` (ArgumentParser.py line 34). The range check `0 <= F <= 1` (line 26) is not needed by any proof, so F is any real.
- Reads of different lengths are excluded by a precondition. The source takes L from the first read and silently scans shorter or longer reads with that L.
- Floating point: F and the ratio are exact reals, so the rounding of the Python float division `sum / total` is not modelled.
- The source's inner dictionary `{offset: 1}` is modelled as the set of its keys; only membership is ever read from it.
- When K exceeds the read length, the source builds an empty index and the filter then fails with NoSurvivingKmers (`Pipeline.RunTooLong`). There is no separate configuration error, and the model follows the code.
- The dominant k-mer lookup `self.kmer_dict.get(self.kmer_max)` (line 83) would fail on a missing key. The model returns NoData there. `Pipeline.RunOutcome` shows that this path is never taken after a successful filter.
- Scanning read indices upward in `Extraction.MatchingReads` relies on CPython's insertion-ordered dictionaries, together with reads being enumerated in order.
