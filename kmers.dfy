/** Overlapping k-mer counts pooled over a list of sequences
    (`count_repeats`, Genomic_Course3_testfile2.py lines 30-37). */
module Kmers {

  /** A count table: each k-mer seen, with how many times it was seen. */
  type Table = map<string, nat>

  /** `repeats.get(kmer, 0)`. */
  function Get(m: Table, w: string): nat {
    if w in m then m[w] else 0
  }

  /** The k-mer of s that starts at position i. */
  function Window(s: string, i: nat, k: nat): string
    requires i + k <= |s|
  {
    s[i..i + k]
  }

  // ---------------------------------------------------------------------------
  // Specification of the counting loops
  // ---------------------------------------------------------------------------

  /** m after counting the k-mers of s that start at positions i, i + 1, ... */
  function AddWindows(m: Table, s: string, k: nat, i: nat): Table
    decreases |s| - i
  {
    if i + k > |s| then m
    else
      var w := Window(s, i, k);
      AddWindows(m[w := Get(m, w) + 1], s, k, i + 1)
  }

  /** m after counting the k-mers of every sequence of seqs, in order. */
  function AddAll(m: Table, seqs: seq<string>, k: nat): Table
    decreases |seqs|
  {
    if seqs == [] then m else AddAll(AddWindows(m, seqs[0], k, 0), seqs[1..], k)
  }

  /** The table `count_repeats(seqs, k)` returns. */
  function KmerCounts(seqs: seq<string>, k: nat): Table {
    AddAll(map[], seqs, k)
  }

  /** `count_repeats`: one dictionary, updated in place for every k-mer
      position of every sequence. */
  method CountRepeats(sequences: seq<string>, k: nat) returns (repeats: Table)
    ensures repeats == KmerCounts(sequences, k)
  {
    repeats := map[];
    var n := 0;
    while n < |sequences|
      invariant n <= |sequences|
      invariant AddAll(repeats, sequences[n..], k) == KmerCounts(sequences, k)
    {
      var s := sequences[n];
      assert sequences[n..][0] == s && sequences[n..][1..] == sequences[n + 1..];
      var i := 0;
      while i + k <= |s|
        invariant AddAll(AddWindows(repeats, s, k, i), sequences[n + 1..], k) == KmerCounts(sequences, k)
        decreases |s| - i
      {
        var kmer := s[i..i + k];
        repeats := repeats[kmer := Get(repeats, kmer) + 1];
        i := i + 1;
      }
      n := n + 1;
    }
  }

  // ---------------------------------------------------------------------------
  // Reference definitions: occurrences and the number of k-mer positions
  // ---------------------------------------------------------------------------

  /** Number of positions j >= i of s at which the k-mer w occurs. */
  function OccurrencesFrom(s: string, k: nat, w: string, i: nat): nat
    decreases |s| - i
  {
    if i + k > |s| then 0
    else (if Window(s, i, k) == w then 1 else 0) + OccurrencesFrom(s, k, w, i + 1)
  }

  /** Number of positions, over all the sequences, at which w occurs as a k-mer. */
  function Occurrences(seqs: seq<string>, k: nat, w: string): nat
    decreases |seqs|
  {
    if seqs == [] then 0 else OccurrencesFrom(seqs[0], k, w, 0) + Occurrences(seqs[1..], k, w)
  }

  /** w is the k-mer at some position of some sequence. */
  ghost predicate OccursIn(seqs: seq<string>, k: nat, w: string) {
    exists a: nat, b: nat :: a < |seqs| && b + k <= |seqs[a]| && Window(seqs[a], b, k) == w
  }

  /** The distinct k-mers of the sequences. */
  ghost function KmersOf(seqs: seq<string>, k: nat): (ws: set<string>)
    ensures forall w :: w in ws <==> OccursIn(seqs, k, w)
  {
    set a: nat, b: nat | a < |seqs| && b + k <= |seqs[a]| :: Window(seqs[a], b, k)
  }

  /** `max(0, len(s) - k + 1)`: the number of k-mer positions of s. */
  function Positions(s: string, k: nat): nat {
    if |s| >= k then |s| - k + 1 else 0
  }

  function TotalPositions(seqs: seq<string>, k: nat): nat
    decreases |seqs|
  {
    if seqs == [] then 0 else Positions(seqs[0], k) + TotalPositions(seqs[1..], k)
  }

  /** The sum of all the counts of a table. */
  ghost function SumValues(m: Table): nat
    decreases |m|
  {
    if m == map[] then 0
    else
      var w :| w in m;
      m[w] + SumValues(m - {w})
  }

  /** Every count of the table is at least 1. */
  ghost predicate Positive(m: Table) {
    forall w :: w in m ==> m[w] >= 1
  }

  // ---------------------------------------------------------------------------
  // What the counting promises
  // ---------------------------------------------------------------------------

  lemma {:induction false} AddWindowsCounts(m: Table, s: string, k: nat, i: nat)
    requires Positive(m)
    ensures Positive(AddWindows(m, s, k, i))
    ensures forall w :: Get(AddWindows(m, s, k, i), w) == Get(m, w) + OccurrencesFrom(s, k, w, i)
    decreases |s| - i
  {
    if i + k <= |s| {
      var v := Window(s, i, k);
      var m' := m[v := Get(m, v) + 1];
      AddWindowsCounts(m', s, k, i + 1);
      forall w ensures Get(AddWindows(m, s, k, i), w) == Get(m, w) + OccurrencesFrom(s, k, w, i) {
        assert Get(m', w) == Get(m, w) + (if v == w then 1 else 0);
      }
    }
  }

  lemma {:induction false} AddAllCounts(m: Table, seqs: seq<string>, k: nat)
    requires Positive(m)
    ensures Positive(AddAll(m, seqs, k))
    ensures forall w :: Get(AddAll(m, seqs, k), w) == Get(m, w) + Occurrences(seqs, k, w)
    decreases |seqs|
  {
    if seqs != [] {
      AddWindowsCounts(m, seqs[0], k, 0);
      AddAllCounts(AddWindows(m, seqs[0], k, 0), seqs[1..], k);
    }
  }

  lemma {:induction false} OccurrencesFromPositive(s: string, k: nat, w: string, i: nat)
    ensures OccurrencesFrom(s, k, w, i) > 0 <==> exists b: nat :: i <= b && b + k <= |s| && Window(s, b, k) == w
    decreases |s| - i
  {
    if i + k <= |s| {
      OccurrencesFromPositive(s, k, w, i + 1);
      if Window(s, i, k) != w && exists b: nat :: i <= b && b + k <= |s| && Window(s, b, k) == w {
        var b: nat :| i <= b && b + k <= |s| && Window(s, b, k) == w;
        assert b != i;
      }
    }
  }

  lemma {:induction false} OccurrencesPositive(seqs: seq<string>, k: nat, w: string)
    ensures Occurrences(seqs, k, w) > 0 <==> OccursIn(seqs, k, w)
    decreases |seqs|
  {
    if seqs != [] {
      OccurrencesFromPositive(seqs[0], k, w, 0);
      OccurrencesPositive(seqs[1..], k, w);
      if OccursIn(seqs[1..], k, w) {
        var a: nat, b: nat :| a < |seqs[1..]| && b + k <= |seqs[1..][a]| && Window(seqs[1..][a], b, k) == w;
        assert Window(seqs[a + 1], b, k) == w;
      }
      if OccursIn(seqs, k, w) {
        var a: nat, b: nat :| a < |seqs| && b + k <= |seqs[a]| && Window(seqs[a], b, k) == w;
        if a > 0 {
          assert Window(seqs[1..][a - 1], b, k) == w;
        }
      }
    }
  }

  /** The keys of `count_repeats(seqs, k)` are exactly the k-mers that occur
      in some sequence. */
  lemma KmerCountsKeys(seqs: seq<string>, k: nat)
    ensures forall w :: w in KmerCounts(seqs, k) <==> OccursIn(seqs, k, w)
  {
    AddAllCounts(map[], seqs, k);
    forall w ensures w in KmerCounts(seqs, k) <==> OccursIn(seqs, k, w) {
      OccurrencesPositive(seqs, k, w);
    }
  }

  /** Each key has length k, and its count is the number of positions, over
      all the sequences, at which it occurs, which is at least 1. */
  lemma KmerCountsValues(seqs: seq<string>, k: nat)
    ensures forall w :: w in KmerCounts(seqs, k) ==>
      |w| == k && KmerCounts(seqs, k)[w] == Occurrences(seqs, k, w) >= 1
  {
    AddAllCounts(map[], seqs, k);
    KmerCountsKeys(seqs, k);
  }

  /** The table is empty exactly when every sequence is shorter than k. */
  lemma KmerCountsEmpty(seqs: seq<string>, k: nat)
    ensures KmerCounts(seqs, k) == map[] <==> forall a :: 0 <= a < |seqs| ==> |seqs[a]| < k
  {
    KmerCountsKeys(seqs, k);
    if exists a :: 0 <= a < |seqs| && |seqs[a]| >= k {
      var a :| 0 <= a < |seqs| && |seqs[a]| >= k;
      assert OccursIn(seqs, k, Window(seqs[a], 0, k));
    }
  }

  lemma {:induction false} SumValuesRemove(m: Table, w: string)
    requires w in m
    ensures SumValues(m) == m[w] + SumValues(m - {w})
    decreases |m|
  {
    var v :| v in m && SumValues(m) == m[v] + SumValues(m - {v});
    if v != w {
      assert |m - {v}| < |m| by { assert (m - {v}).Keys < m.Keys; }
      SumValuesRemove(m - {v}, w);
      assert |m - {w}| < |m| by { assert (m - {w}).Keys < m.Keys; }
      SumValuesRemove(m - {w}, v);
      assert m - {v} - {w} == m - {w} - {v};
    }
  }

  /** Counting one more occurrence of w adds one to the sum of the counts. */
  lemma SumValuesBump(m: Table, w: string)
    ensures SumValues(m[w := Get(m, w) + 1]) == SumValues(m) + 1
  {
    var m' := m[w := Get(m, w) + 1];
    SumValuesRemove(m', w);
    if w in m {
      SumValuesRemove(m, w);
      assert m' - {w} == m - {w};
    } else {
      assert m' - {w} == m;
    }
  }

  lemma {:induction false} AddWindowsSum(m: Table, s: string, k: nat, i: nat)
    requires i <= |s| + 1
    ensures SumValues(AddWindows(m, s, k, i)) == SumValues(m) + if i + k <= |s| then |s| - k + 1 - i else 0
    decreases |s| - i
  {
    if i + k <= |s| {
      var w := Window(s, i, k);
      SumValuesBump(m, w);
      AddWindowsSum(m[w := Get(m, w) + 1], s, k, i + 1);
    }
  }

  lemma {:induction false} AddAllSum(m: Table, seqs: seq<string>, k: nat)
    ensures SumValues(AddAll(m, seqs, k)) == SumValues(m) + TotalPositions(seqs, k)
    decreases |seqs|
  {
    if seqs != [] {
      AddWindowsSum(m, seqs[0], k, 0);
      AddAllSum(AddWindows(m, seqs[0], k, 0), seqs[1..], k);
    }
  }

  /** The counts of `count_repeats(seqs, k)` add up to the number of k-mer
      positions, the sum of max(0, |s| - k + 1) over the sequences. */
  lemma KmerCountsTotal(seqs: seq<string>, k: nat)
    ensures SumValues(KmerCounts(seqs, k)) == TotalPositions(seqs, k)
  {
    AddAllSum(map[], seqs, k);
  }

  /** Overlapping occurrences are all counted. */
  lemma ExampleOverlapping()
    ensures KmerCounts(["AAAA"], 2) == map["AA" := 3]
  {
    var s := "AAAA";
    assert Window(s, 0, 2) == "AA" && Window(s, 1, 2) == "AA" && Window(s, 2, 2) == "AA";
    assert ["AAAA"][1..] == [];
  }
}
