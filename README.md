# FASTA statistics: open reading frames and repeats

This project is a Dafny model of the analysis script `Genomic_Course3_testfile2.py`.
The script reads DNA records from a FASTA file and reports statistics about them:

- the number of records;
- the longest and shortest sequence lengths;
- the longest open reading frame (ORF) in reading frame 2, and in frame 3 together with its start;
- the longest ORF in any forward frame;
- the longest ORF of one fixed record id;
- how often the most frequent 6-mer occurs;
- how many distinct 12-mers reach the highest 12-mer count;
- which of four given 7-mers is the most frequent.

The model has three parts:

- `Orfs` (`orfs.dfy`) is `find_orfs`. `FindOrfs` is the imperative codon scan, and it is proved equal to `OrfsOf`.
  - `OrfsOf` is a recursive specification of the same scan, in positions of the unshifted sequence.
  - `OrfsOfShape` says what every reported ORF is.
- `Kmers` (`kmers.dfy`) is `count_repeats`. `CountRepeats` is the nested loop that updates a dictionary in place, and it is proved equal to the fold `KmerCounts`.
  - Lemmas relate that table to an independent occurrence count, `Occurrences`.
  - They also relate it to the total number of k-mer positions.
- `Analysis` (`analysis.dfy`) is the body of `analyze_fasta`. `AnalysisFacts` (`analysis_facts.dfy`) states what each statistic means.
  - `ScanRecords` is the per-record loop. Each running value is proved equal to a specification function over the records read so far.
  - `AnalyzeFasta` is the whole function. It is proved equal to `Analyze`.
  - The lemmas in `AnalysisFacts` relate each statistic to all the records at once. Examples are "a longest sequence", "the first longest ORF of frame 2", "the last record with that id" and "the first candidate with the largest count".

`wrappers.dfy` holds the `Option` and `Result` types.

The ORF scan follows the code in the cases below:

- Reading frames are 0-based offsets, as the code passes them. The "reading frame 2" statistic is `frame=1` and "reading frame 3" is `frame=2`.
- An ORF's start is 1-based and refers to the unshifted sequence.
- An ORF still open when fewer than three characters are left is reported with the literal length `len(seq[frame:]) - start_pos`. That length need not be a multiple of 3.
- An `ATG` met while an ORF is open starts nothing.
- A `frame` past the end of the sequence gives the empty slice and no ORF, as Python's slicing does.

So `"CCATGAAATAGATGCCCTAA"` has no ORF in frame 0. Its two ORFs, `(3, 9)` and `(12, 9)`, are in frame 2 (`ExampleTwoOrfs`).

`max()` over the values of an empty k-mer table raises in the script. The model returns `Failure(EmptyCountTable(k))` in that case:

- k is 6 when no sequence has 6 characters. This includes an empty list of records.
- Otherwise k is 12 when no sequence has 12 characters.

## Model

| member | source | states |
|---|---|---|
| Orfs.CodonTests | Genomic_Course3_testfile2.py:12-21 | the character-wise codon tests hold exactly when the codon equals "ATG", and exactly when it is one of "TAA", "TAG", "TGA" |
| Orfs.FindOrfs | Genomic_Course3_testfile2.py:10-28 | the shifted codon scan returns exactly the ORFs of the scan specification `OrfsOf(s, frame)` |
| Orfs.OrfsOfShape | Genomic_Course3_testfile2.py:10-28 | every reported ORF starts with an in-frame ATG (start - 1 is frame modulo 3) and lies inside s; the ORFs come in order without overlap; every ORF but the last ends at the first in-frame stop after its ATG (length a multiple of 3, at least 6); the last one does that or has no in-frame stop and runs to the end of s; every in-frame ATG lies inside some reported ORF |
| Orfs.ExampleStopTerminated | Genomic_Course3_testfile2.py:15-24 | "ATGAAATAG" in frame 0 gives the single ORF (1, 9) |
| Orfs.ExampleUnterminated | Genomic_Course3_testfile2.py:25-27 | "ATGAAA" gives (1, 6): an ORF without a stop codon is reported up to the end |
| Orfs.ExampleUnterminatedPartialCodon | Genomic_Course3_testfile2.py:25-27 | "ATGAA" gives (1, 5): the unterminated length counts a trailing partial codon |
| Orfs.ExampleNoOrfInFrame0 | Genomic_Course3_testfile2.py:10-28 | "CCATGAAATAGATGCCCTAA" has no ORF in frame 0, where it has no ATG codon |
| Orfs.ExampleTwoOrfs | Genomic_Course3_testfile2.py:10-28 | "CCATGAAATAGATGCCCTAA" has the ORFs (3, 9) and (12, 9) in frame 2 |
| Kmers.CountRepeats | Genomic_Course3_testfile2.py:30-37 | the in-place dictionary loop returns exactly the table `KmerCounts(sequences, k)` |
| Kmers.KmerCountsKeys | Genomic_Course3_testfile2.py:30-37 | a key is in the table if and only if it is the k-mer at some position of some sequence |
| Kmers.KmerCountsValues | Genomic_Course3_testfile2.py:30-37 | every key has length k and its count is its number of (overlapping) occurrences over all the sequences, at least 1 |
| Kmers.KmerCountsEmpty | Genomic_Course3_testfile2.py:34 | the table is empty if and only if every sequence is shorter than k |
| Kmers.KmerCountsTotal | Genomic_Course3_testfile2.py:34-36 | the counts add up to the number of k-mer positions, the sum of max(0, len - k + 1) over the sequences |
| Kmers.ExampleOverlapping | Genomic_Course3_testfile2.py:34-36 | overlapping occurrences all count: ["AAAA"] with k = 2 gives {"AA": 3} |
| Analysis.FirstLongest | Genomic_Course3_testfile2.py:67 | `max(orfs, key=length)` picks an ORF no shorter than any other, and every earlier ORF is strictly shorter (the first longest) |
| Analysis.LongestLength | Genomic_Course3_testfile2.py:66-68 | the length of a longest ORF of the list: an upper bound attained by some ORF, 0 for an empty list |
| Analysis.MaxValue | Genomic_Course3_testfile2.py:100 | `max(table.values())` of a non-empty table is one of its counts and no count exceeds it |
| Analysis.TieCount | Genomic_Course3_testfile2.py:105-106 | the number of keys reaching the largest count is at least 1 and at most the number of keys |
| Analysis.ScanRecords | Genomic_Course3_testfile2.py:53-83 | after the record loop each statistic, the list of sequences and the id dictionary equal their specification functions over all the records |
| Analysis.RaiseByFrame1 | Genomic_Course3_testfile2.py:64-68 | the running maximum becomes the larger of itself and the longest frame-1 ORF of the sequence |
| Analysis.ReplaceByFrame2 | Genomic_Course3_testfile2.py:70-76 | the best frame-2 (start, length) is replaced by the first longest frame-2 ORF of the sequence only when that one is strictly longer |
| Analysis.RaiseByAllFrames | Genomic_Course3_testfile2.py:78-83 | the running maximum becomes the larger of itself and the longest ORF of the sequence over frames 0, 1 and 2 |
| Analysis.TargetLongestOrf | Genomic_Course3_testfile2.py:85-96 | None when the target id is not a key; otherwise the longest ORF over frames 0-2 of the sequence stored under it |
| Analysis.BestCandidate | Genomic_Course3_testfile2.py:108-117 | the candidate loop returns the choice of the specification `PickCandidate` |
| Analysis.AnalyzeFasta | Genomic_Course3_testfile2.py:39-132 | the whole analysis returns exactly `Analyze(records)`: the failure for an empty 6-mer or 12-mer table, otherwise the report |
| AnalysisFacts.LongestSeqLenMeaning | Genomic_Course3_testfile2.py:60-61 | `longest_seq_len` is at least every sequence length, equals the length of some sequence, and is 0 with no records |
| AnalysisFacts.ShortestSeqLenMeaning | Genomic_Course3_testfile2.py:60-62 | `shortest_seq_len` stays infinite (None) if and only if there are no records; otherwise it is at most every length and equals some length |
| AnalysisFacts.ShortestAtMostLongest | Genomic_Course3_testfile2.py:60-62 | with at least one record the shortest length is finite and at most the longest |
| AnalysisFacts.LongestOrfInFrameMeaning | Genomic_Course3_testfile2.py:64-68 | the frame's running maximum bounds every ORF of that frame in every record, is attained by one when positive, and is 0 if and only if no record has an ORF in that frame |
| AnalysisFacts.LongestOrfUpToMeaning | Genomic_Course3_testfile2.py:78-83 | the per-sequence maximum over frames 0 .. f - 1 bounds every ORF of those frames and is attained by one when positive |
| AnalysisFacts.AnyFrameIsMaxOfFrames | Genomic_Course3_testfile2.py:78-83 | `longest_orf_any_frame` is the largest of the three per-frame maxima over all records |
| AnalysisFacts.Rf3BestMeaning | Genomic_Course3_testfile2.py:70-76 | `longest_orf_rf3_len` is the frame-2 maximum; with no frame-2 ORF the pair stays (0, 0); otherwise it is the first longest ORF of the first record whose frame-2 ORFs reach that length |
| AnalysisFacts.IdMapMeaning | Genomic_Course3_testfile2.py:58 | `seq_dict` has a key if and only if some record has that id, and maps it to the sequence of the last record with that id |
| AnalysisFacts.TargetOrfLengthMeaning | Genomic_Course3_testfile2.py:85-96 | the target statistic is None if and only if no record has the target id; otherwise it is the longest ORF over frames 0-2 of the last record with that id |
| AnalysisFacts.MostFrequentMeaning | Genomic_Course3_testfile2.py:98-100 | the largest count of a non-empty table is at least the occurrence count of every k-mer and equals that of some k-mer of the sequences |
| AnalysisFacts.TieCountMeaning | Genomic_Course3_testfile2.py:104-106 | for a non-empty k-mer table (k = 12 here), the number of keys reaching the largest count equals the number of distinct k-mers of the sequences whose occurrence count is that largest count |
| AnalysisFacts.PickCandidateMeaning | Genomic_Course3_testfile2.py:108-117 | the chosen count is at least every candidate's count; no candidate is chosen if and only if that count is 0; otherwise the chosen one is the first candidate with that count |
| AnalysisFacts.AnalyzeOutcome | Genomic_Course3_testfile2.py:98-106 | the analysis fails if and only if every sequence is shorter than 12, and fails on the 6-mer table if and only if every sequence is shorter than 6 |
| AnalysisFacts.ReportMeaning | Genomic_Course3_testfile2.py:119-132 | a report has at least one record; every sequence length lies between the shortest and the longest, which is at least 12; the frame-2 and frame-3 maxima are at most the any-frame maximum; the target is None if and only if its id is absent; the most frequent 6-mer count bounds every 6-mer's occurrences; both max counts are at least 1; the 12-mer tie count is the number of distinct 12-mers occurring as often as the most frequent one; no 7-mer candidate exactly when its count is 0 |

## Left out

- Reading the FASTA file (`SeqIO.parse`, lines 8 and 53) is not modelled. The records are given as a list of (id, sequence) pairs.
- `.upper()` (line 55) is not modelled, because there is no case folding on Dafny strings. `Record.sequence` stands for the already upper-cased sequence.
- The usage example and its printing (lines 134-148) are I/O and are not modelled.
- `float('inf')` (line 42) is modelled as `None` while no record has been read. In a report the shortest length is a plain number, because a report needs a 12-character sequence.
- The exception that `max()` raises on an empty table (lines 100 and 105) is modelled as `Failure(EmptyCountTable(k))`. File and parser errors are not modelled.
- `repeats_6 = {}` and `repeats_12 = {}` (lines 50-51) are overwritten before any use, so they are not modelled.
- `most_freq_6` (line 101) is computed but never returned or used, so it is not modelled.
- Python tuples `(start, length)` are the datatype `Orf`. The dictionaries are Dafny maps, and their insertion order is not modelled because no result depends on it.
- Orfs.FindOrfs: `frame` is a natural number. Python's negative slice indices (a negative `frame`) are not modelled, because the script only passes 0, 1 and 2.
- Kmers.CountRepeats: `repeat_length` is a natural number. A negative length is not modelled, because the script only passes 6, 7 and 12.
- `str(seq)` inside `count_repeats` (line 33) is the identity on the strings the script passes, so it is not modelled.
