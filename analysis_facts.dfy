/** What the statistics of `analyze_fasta` mean: each running value of the
    record loop against all the records at once, the k-mer statistics against
    the occurrence counts, and the outcome of the whole analysis. */
module AnalysisFacts {
  import opened Wrappers
  import opened Orfs
  import opened Kmers
  import opened Analysis

  // ---------------------------------------------------------------------------
  // Sequence lengths (lines 60-62)
  // ---------------------------------------------------------------------------

  /** `longest_seq_len` is the length of a longest sequence, 0 with no records. */
  lemma {:induction false} LongestSeqLenMeaning(rs: seq<Record>)
    ensures forall n :: 0 <= n < |rs| ==> |rs[n].sequence| <= LongestSeqLen(rs)
    ensures rs == [] ==> LongestSeqLen(rs) == 0
    ensures rs != [] ==> exists n :: 0 <= n < |rs| && |rs[n].sequence| == LongestSeqLen(rs)
    decreases |rs|
  {
    if rs != [] {
      var init := rs[..|rs| - 1];
      LongestSeqLenMeaning(init);
      assert forall n :: 0 <= n < |init| ==> init[n] == rs[n];
      if LongestSeqLen(rs) != |rs[|rs| - 1].sequence| {
        var n :| 0 <= n < |init| && |init[n].sequence| == LongestSeqLen(init);
        assert |rs[n].sequence| == LongestSeqLen(rs);
      }
    }
  }

  /** `shortest_seq_len` stays infinite (None) exactly when there are no
      records; otherwise it is the length of a shortest sequence. */
  lemma {:induction false} ShortestSeqLenMeaning(rs: seq<Record>)
    ensures ShortestSeqLen(rs).None? <==> rs == []
    ensures ShortestSeqLen(rs).Some? ==> forall n :: 0 <= n < |rs| ==> ShortestSeqLen(rs).value <= |rs[n].sequence|
    ensures ShortestSeqLen(rs).Some? ==> exists n :: 0 <= n < |rs| && |rs[n].sequence| == ShortestSeqLen(rs).value
    decreases |rs|
  {
    if rs != [] {
      var init := rs[..|rs| - 1];
      ShortestSeqLenMeaning(init);
      assert forall n :: 0 <= n < |init| ==> init[n] == rs[n];
      if init != [] && ShortestSeqLen(rs).value != |rs[|rs| - 1].sequence| {
        var n :| 0 <= n < |init| && |init[n].sequence| == ShortestSeqLen(init).value;
        assert |rs[n].sequence| == ShortestSeqLen(rs).value;
      }
    }
  }

  /** With at least one record, the shortest length is at most the longest. */
  lemma ShortestAtMostLongest(rs: seq<Record>)
    requires rs != []
    ensures ShortestSeqLen(rs).Some? && ShortestSeqLen(rs).value <= LongestSeqLen(rs)
  {
    ShortestSeqLenMeaning(rs);
    LongestSeqLenMeaning(rs);
  }

  // ---------------------------------------------------------------------------
  // Longest ORFs (lines 64-83)
  // ---------------------------------------------------------------------------

  lemma {:induction false} InFrameBounds(rs: seq<Record>, frame: nat)
    ensures forall n :: 0 <= n < |rs| ==> LongestLength(OrfsOf(rs[n].sequence, frame)) <= LongestOrfInFrame(rs, frame)
    ensures LongestOrfInFrame(rs, frame) > 0 ==>
      exists n :: 0 <= n < |rs| && LongestLength(OrfsOf(rs[n].sequence, frame)) == LongestOrfInFrame(rs, frame)
    decreases |rs|
  {
    if rs != [] {
      var init := rs[..|rs| - 1];
      InFrameBounds(init, frame);
      assert forall n :: 0 <= n < |init| ==> init[n] == rs[n];
      if LongestOrfInFrame(rs, frame) != LongestLength(OrfsOf(rs[|rs| - 1].sequence, frame)) {
        var n :| 0 <= n < |init| && LongestLength(OrfsOf(init[n].sequence, frame)) == LongestOrfInFrame(init, frame);
        assert LongestLength(OrfsOf(rs[n].sequence, frame)) == LongestOrfInFrame(rs, frame);
      }
    }
  }

  /** The running maximum of a frame is the length of a longest ORF of that
      frame over all the records, and 0 exactly when no record has one. */
  lemma LongestOrfInFrameMeaning(rs: seq<Record>, frame: nat)
    ensures forall n, o :: 0 <= n < |rs| && o in OrfsOf(rs[n].sequence, frame) ==> o.length <= LongestOrfInFrame(rs, frame)
    ensures LongestOrfInFrame(rs, frame) > 0 ==>
      exists n, o :: 0 <= n < |rs| && o in OrfsOf(rs[n].sequence, frame) && o.length == LongestOrfInFrame(rs, frame)
    ensures LongestOrfInFrame(rs, frame) == 0 <==> forall n :: 0 <= n < |rs| ==> OrfsOf(rs[n].sequence, frame) == []
  {
    InFrameBounds(rs, frame);
    if LongestOrfInFrame(rs, frame) > 0 {
      var n :| 0 <= n < |rs| && LongestLength(OrfsOf(rs[n].sequence, frame)) == LongestOrfInFrame(rs, frame);
      var o :| o in OrfsOf(rs[n].sequence, frame) && o.length == LongestOrfInFrame(rs, frame);
    }
    if exists n :: 0 <= n < |rs| && OrfsOf(rs[n].sequence, frame) != [] {
      var n :| 0 <= n < |rs| && OrfsOf(rs[n].sequence, frame) != [];
      var orfs := OrfsOf(rs[n].sequence, frame);
      OrfsOfShape(rs[n].sequence, frame);
      assert WellFormed(rs[n].sequence, frame, orfs[0]);
      assert orfs[0] in orfs;
    }
  }

  /** The longest ORF length of one sequence over frames 0 .. f - 1. */
  lemma {:induction false} LongestOrfUpToMeaning(s: string, f: nat)
    ensures forall fr: nat, o :: fr < f && o in OrfsOf(s, fr) ==> o.length <= LongestOrfUpTo(s, f)
    ensures LongestOrfUpTo(s, f) > 0 ==>
      exists fr: nat, o :: fr < f && o in OrfsOf(s, fr) && o.length == LongestOrfUpTo(s, f)
    decreases f
  {
    if f > 0 {
      LongestOrfUpToMeaning(s, f - 1);
      var orfs := OrfsOf(s, f - 1);
      if LongestOrfUpTo(s, f) > 0 && LongestOrfUpTo(s, f) != LongestOrfUpTo(s, f - 1) {
        var o :| o in orfs && o.length == LongestOrfUpTo(s, f);
        assert f - 1 < f && o in OrfsOf(s, f - 1);
      }
    }
  }

  /** The maximum over all frames is the largest of the three per-frame maxima. */
  lemma {:induction false} AnyFrameIsMaxOfFrames(rs: seq<Record>)
    ensures LongestOrfAnyFrame(rs) ==
      Max(Max(LongestOrfInFrame(rs, 0), LongestOrfInFrame(rs, 1)), LongestOrfInFrame(rs, 2))
    decreases |rs|
  {
    if rs != [] {
      AnyFrameIsMaxOfFrames(rs[..|rs| - 1]);
      UpToThreeFrames(rs[|rs| - 1].sequence);
    }
  }

  lemma UpToThreeFrames(s: string)
    ensures LongestOrfUpTo(s, 3) ==
      Max(Max(LongestLength(OrfsOf(s, 0)), LongestLength(OrfsOf(s, 1))), LongestLength(OrfsOf(s, 2)))
  {
    assert LongestOrfUpTo(s, 1) == LongestLength(OrfsOf(s, 0));
    assert LongestOrfUpTo(s, 2) == Max(LongestOrfUpTo(s, 1), LongestLength(OrfsOf(s, 1)));
  }

  /** record n holds the best frame-2 ORF: no earlier record has one as long,
      and `best` is the first longest of its own frame-2 ORFs. */
  ghost predicate FirstBestAt(rs: seq<Record>, n: int, best: Orf) {
    && 0 <= n < |rs|
    && OrfsOf(rs[n].sequence, 2) != []
    && best == OrfsOf(rs[n].sequence, 2)[FirstLongest(OrfsOf(rs[n].sequence, 2))]
    && forall m :: 0 <= m < n ==> LongestLength(OrfsOf(rs[m].sequence, 2)) < best.length
  }

  /** The pair (`longest_orf_rf3_start`, `longest_orf_rf3_len`): a longest ORF
      of frame 2, the first one found on a tie, or (0, 0) when there is none. */
  lemma {:induction false} Rf3BestMeaning(rs: seq<Record>)
    ensures Rf3Best(rs).length == LongestOrfInFrame(rs, 2)
    ensures Rf3Best(rs).length == 0 ==> Rf3Best(rs) == Orf(0, 0)
    ensures Rf3Best(rs).length > 0 ==> exists n :: FirstBestAt(rs, n, Rf3Best(rs))
    decreases |rs|
  {
    if rs != [] {
      var init := rs[..|rs| - 1];
      Rf3BestMeaning(init);
      InFrameBounds(init, 2);
      assert forall n :: 0 <= n < |init| ==> init[n] == rs[n];
      var prev := Rf3Best(init);
      var orfs := OrfsOf(rs[|rs| - 1].sequence, 2);
      if orfs != [] && orfs[FirstLongest(orfs)].length > prev.length {
        assert FirstBestAt(rs, |rs| - 1, Rf3Best(rs));
      } else if prev.length > 0 {
        var n :| FirstBestAt(init, n, prev);
        assert FirstBestAt(rs, n, Rf3Best(rs));
      }
    }
  }

  // ---------------------------------------------------------------------------
  // The id dictionary and the target record (lines 58, 85-96)
  // ---------------------------------------------------------------------------

  /** record n is the last record with id `id`. */
  ghost predicate LastWithId(rs: seq<Record>, n: int, id: string) {
    0 <= n < |rs| && rs[n].id == id && forall m :: n < m < |rs| ==> rs[m].id != id
  }

  /** `seq_dict` holds exactly the ids of the records, each mapped to the
      sequence of the last record with that id. */
  lemma {:induction false} IdMapMeaning(rs: seq<Record>)
    ensures forall id :: id in IdMap(rs) <==> exists n :: 0 <= n < |rs| && rs[n].id == id
    ensures forall id :: id in IdMap(rs) ==> exists n :: LastWithId(rs, n, id) && IdMap(rs)[id] == rs[n].sequence
    decreases |rs|
  {
    if rs != [] {
      var init := rs[..|rs| - 1];
      IdMapMeaning(init);
      assert forall n :: 0 <= n < |init| ==> init[n] == rs[n];
      var last := rs[|rs| - 1];
      forall id | id in IdMap(rs)
        ensures exists n :: LastWithId(rs, n, id) && IdMap(rs)[id] == rs[n].sequence
      {
        if id == last.id {
          assert LastWithId(rs, |rs| - 1, id);
        } else {
          assert id in IdMap(init);
          var n :| LastWithId(init, n, id) && IdMap(init)[id] == init[n].sequence;
          assert LastWithId(rs, n, id);
        }
      }
    }
  }

  /** `longest_orf_target_seq` is None exactly when no record has the target
      id; otherwise it is the longest ORF over frames 0-2 of the last such
      record. */
  lemma TargetOrfLengthMeaning(rs: seq<Record>, target: string)
    ensures TargetOrfLength(rs, target).None? <==> forall n :: 0 <= n < |rs| ==> rs[n].id != target
    ensures TargetOrfLength(rs, target).Some? ==>
      exists n :: LastWithId(rs, n, target) && TargetOrfLength(rs, target).value == LongestOrfUpTo(rs[n].sequence, 3)
  {
    IdMapMeaning(rs);
  }

  // ---------------------------------------------------------------------------
  // k-mer statistics (lines 98-117)
  // ---------------------------------------------------------------------------

  /** `max(repeats.values())`: no k-mer occurs more often, and some k-mer of
      the sequences occurs that often. */
  lemma MostFrequentMeaning(seqs: seq<string>, k: nat)
    requires KmerCounts(seqs, k) != map[]
    ensures forall w :: Occurrences(seqs, k, w) <= MaxValue(KmerCounts(seqs, k))
    ensures exists w :: OccursIn(seqs, k, w) && |w| == k && Occurrences(seqs, k, w) == MaxValue(KmerCounts(seqs, k))
  {
    var table := KmerCounts(seqs, k);
    AddAllCounts(map[], seqs, k);
    KmerCountsKeys(seqs, k);
    KmerCountsValues(seqs, k);
    forall w ensures Occurrences(seqs, k, w) <= MaxValue(table) {
      assert Get(table, w) == Get(map[], w) + Occurrences(seqs, k, w);
    }
    var w :| w in table && table[w] == MaxValue(table);
  }

  /** The distinct k-mers of the sequences that occur exactly c times. */
  ghost function KmersWithCount(seqs: seq<string>, k: nat, c: nat): set<string> {
    set w | w in KmersOf(seqs, k) && Occurrences(seqs, k, w) == c
  }

  /** The tie count of a non-empty table is the number of distinct k-mers of
      the sequences whose occurrence count reaches the largest count. */
  lemma TieCountMeaning(seqs: seq<string>, k: nat)
    requires KmerCounts(seqs, k) != map[]
    ensures TieCount(KmerCounts(seqs, k)) == |KmersWithCount(seqs, k, MaxValue(KmerCounts(seqs, k)))|
  {
    var table := KmerCounts(seqs, k);
    var mx := MaxValue(table);
    KmerCountsKeys(seqs, k);
    KmerCountsValues(seqs, k);
    forall w ensures w in KeysWithValue(table, mx) <==> w in KmersWithCount(seqs, k, mx) {
    }
    assert KeysWithValue(table, mx) == KmersWithCount(seqs, k, mx);
  }

  /** candidate n is the first of the candidates with the count of `choice`. */
  ghost predicate FirstWithCount(cands: seq<string>, table: Table, n: int, choice: Choice) {
    && 0 <= n < |cands|
    && choice.candidate == Some(cands[n])
    && Get(table, cands[n]) == choice.count
    && forall m :: 0 <= m < n ==> Get(table, cands[m]) < choice.count
  }

  /** The 7-mer loop picks the first candidate with the largest count, and
      picks none when every candidate has count 0. */
  lemma {:induction false} PickCandidateMeaning(cands: seq<string>, table: Table)
    ensures forall n :: 0 <= n < |cands| ==> Get(table, cands[n]) <= PickCandidate(cands, table).count
    ensures PickCandidate(cands, table).candidate.None? <==> PickCandidate(cands, table).count == 0
    ensures PickCandidate(cands, table).candidate.Some? ==> exists n :: FirstWithCount(cands, table, n, PickCandidate(cands, table))
    decreases |cands|
  {
    if cands != [] {
      var init := cands[..|cands| - 1];
      PickCandidateMeaning(init, table);
      assert forall n :: 0 <= n < |init| ==> init[n] == cands[n];
      var prev := PickCandidate(init, table);
      var c := cands[|cands| - 1];
      if Get(table, c) > prev.count {
        assert FirstWithCount(cands, table, |cands| - 1, PickCandidate(cands, table));
      } else if prev.candidate.Some? {
        var n :| FirstWithCount(init, table, n, prev);
        assert FirstWithCount(cands, table, n, PickCandidate(cands, table));
      }
    }
  }

  // ---------------------------------------------------------------------------
  // The outcome of the analysis
  // ---------------------------------------------------------------------------

  /** `max()` of an empty table raises: the analysis fails exactly when no
      sequence is 12 long, and fails on the 6-mers exactly when none is 6 long. */
  lemma AnalyzeOutcome(rs: seq<Record>)
    ensures Analyze(rs).Failure? <==> forall n :: 0 <= n < |rs| ==> |rs[n].sequence| < 12
    ensures Analyze(rs) == Failure(EmptyCountTable(6)) <==> forall n :: 0 <= n < |rs| ==> |rs[n].sequence| < 6
    ensures Analyze(rs).Failure? ==> Analyze(rs).error in {EmptyCountTable(6), EmptyCountTable(12)}
  {
    var seqs := Sequences(rs);
    assert forall n :: 0 <= n < |rs| ==> seqs[n] == rs[n].sequence;
    KmerCountsEmpty(seqs, 6);
    KmerCountsEmpty(seqs, 12);
  }

  /** What a successful report says about the records. */
  lemma ReportMeaning(rs: seq<Record>)
    requires Analyze(rs).Success?
    ensures Analyze(rs).value.recordCount == |rs| >= 1
    ensures Analyze(rs).value.shortestSeqLen <= Analyze(rs).value.longestSeqLen
    ensures Analyze(rs).value.longestSeqLen >= 12
    ensures forall n :: 0 <= n < |rs| ==>
      Analyze(rs).value.shortestSeqLen <= |rs[n].sequence| <= Analyze(rs).value.longestSeqLen
    ensures Analyze(rs).value.longestOrfRf2 <= Analyze(rs).value.longestOrfAnyFrame
    ensures Analyze(rs).value.longestOrfRf3Len <= Analyze(rs).value.longestOrfAnyFrame
    ensures Analyze(rs).value.longestOrfRf3Len == LongestOrfInFrame(rs, 2)
    ensures Analyze(rs).value.longestOrfTargetSeq.None? <==> forall n :: 0 <= n < |rs| ==> rs[n].id != TargetId
    ensures forall w :: Occurrences(Sequences(rs), 6, w) <= Analyze(rs).value.mostFreq6Count
    ensures Analyze(rs).value.mostFreq6Count >= 1 && Analyze(rs).value.max12Count >= 1
    ensures Analyze(rs).value.max12Count
      == |KmersWithCount(Sequences(rs), 12, MaxValue(KmerCounts(Sequences(rs), 12)))|
    ensures Analyze(rs).value.maxCandidate7.None? <==> Analyze(rs).value.maxCandidate7Count == 0
  {
    var seqs := Sequences(rs);
    AnalyzeOutcome(rs);
    ShortestAtMostLongest(rs);
    ShortestSeqLenMeaning(rs);
    LongestSeqLenMeaning(rs);
    AnyFrameIsMaxOfFrames(rs);
    Rf3BestMeaning(rs);
    TargetOrfLengthMeaning(rs, TargetId);
    MostFrequentMeaning(seqs, 6);
    KmerCountsValues(seqs, 6);
    TieCountMeaning(seqs, 12);
    PickCandidateMeaning(Candidates7, KmerCounts(seqs, 7));
  }
}
