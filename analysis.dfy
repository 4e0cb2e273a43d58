/** The aggregation body of `analyze_fasta` (Genomic_Course3_testfile2.py
    lines 39-132): running statistics folded over the records in order, then
    k-mer statistics over all the sequences. */
module Analysis {
  import opened Wrappers
  import opened Orfs
  import opened Kmers

  /** One FASTA record: its id and its (already upper-cased) sequence. */
  datatype Record = Record(id: string, sequence: string)

  /** The dictionary `analyze_fasta` returns. `shortestSeqLen` is a plain
      number: a report exists only when some sequence has a 12-mer, so there
      is at least one record. */
  datatype Report = Report(
    recordCount: nat,
    longestSeqLen: nat,
    shortestSeqLen: nat,
    longestOrfRf2: nat,
    longestOrfRf3Start: nat,
    longestOrfRf3Len: nat,
    longestOrfAnyFrame: nat,
    longestOrfTargetSeq: Option<nat>,
    mostFreq6Count: nat,
    max12Count: nat,
    maxCandidate7: Option<string>,
    maxCandidate7Count: nat)

  /** `max()` of the counts of an empty k-mer table raises; k says which table. */
  datatype AnalysisError = EmptyCountTable(k: nat)

  /** The best 7-mer candidate so far and its count. */
  datatype Choice = Choice(candidate: Option<string>, count: nat)

  const TargetId: string := "gi|142022655|gb|EQ086233.1|16"

  const Candidates7: seq<string> := ["AATGGCA", "CATCGCC", "CGCGCCG", "TGCGCGC"]

  function Max(a: nat, b: nat): nat { if a >= b then a else b }

  function Min(a: nat, b: nat): nat { if a <= b then a else b }

  // ---------------------------------------------------------------------------
  // Expression-level picks: `max(orfs, key=...)`, `max(table.values())`
  // ---------------------------------------------------------------------------

  /** Index of the ORF `max(orfs, key=lambda x: x[1])` returns: a longest one,
      and the first of those. */
  function FirstLongest(orfs: seq<Orf>): (k: nat)
    requires orfs != []
    ensures k < |orfs|
    ensures forall n :: 0 <= n < |orfs| ==> orfs[n].length <= orfs[k].length
    ensures forall n :: 0 <= n < k ==> orfs[n].length < orfs[k].length
  {
    if |orfs| == 1 then 0
    else
      var k := FirstLongest(orfs[..|orfs| - 1]);
      if orfs[|orfs| - 1].length > orfs[k].length then |orfs| - 1 else k
  }

  /** Length of a longest ORF of the list, 0 when the list is empty (the
      source skips empty lists, and 0 never raises a running maximum). */
  function LongestLength(orfs: seq<Orf>): (r: nat)
    ensures forall o :: o in orfs ==> o.length <= r
    ensures orfs == [] ==> r == 0
    ensures orfs != [] ==> exists o :: o in orfs && o.length == r
  {
    if orfs == [] then 0 else orfs[FirstLongest(orfs)].length
  }

  /** `max(table.values())` of a non-empty table. */
  function MaxValue(m: Table): (r: nat)
    requires m != map[]
    ensures r in m.Values
    ensures forall w :: w in m ==> m[w] <= r
  {
    MaxExists(m.Values);
    var v :| v in m.Values && forall u :: u in m.Values ==> u <= v;
    assert forall w :: w in m ==> m[w] in m.Values;
    v
  }

  lemma {:induction false} MaxExists(vs: set<nat>)
    requires vs != {}
    ensures exists v :: v in vs && forall u :: u in vs ==> u <= v
    decreases |vs|
  {
    var x :| x in vs;
    if vs != {x} {
      MaxExists(vs - {x});
      var y :| y in vs - {x} && forall u :: u in vs - {x} ==> u <= y;
      var best := if x > y then x else y;
      forall u | u in vs ensures u <= best {
        if u != x {
          assert u in vs - {x};
        }
      }
    }
  }

  /** `sum(1 for v in table.values() if v == max_count)`: how many distinct
      keys reach the largest count; at least one. */
  function TieCount(m: Table): (r: nat)
    requires m != map[]
    ensures 1 <= r <= |m|
  {
    var ties := KeysWithValue(m, MaxValue(m));
    var w :| w in m && m[w] == MaxValue(m);
    assert w in ties;
    SubsetCard(ties, m.Keys);
    |ties|
  }

  /** The keys of m whose count is v. */
  function KeysWithValue(m: Table, v: nat): (ks: set<string>)
    ensures ks <= m.Keys
  {
    set w | w in m && m[w] == v
  }

  lemma SubsetCard(a: set<string>, b: set<string>)
    requires a <= b
    ensures |a| <= |b|
  {
    assert b == a + (b - a);
  }

  // ---------------------------------------------------------------------------
  // Specification of the per-record fold (lines 53-83), over a prefix of the
  // records: each function adds the last record to the value of the others
  // ---------------------------------------------------------------------------

  function LongestSeqLen(rs: seq<Record>): nat
    decreases |rs|
  {
    if rs == [] then 0
    else Max(LongestSeqLen(rs[..|rs| - 1]), |rs[|rs| - 1].sequence|)
  }

  /** None stands for the initial `float('inf')`. */
  function ShortestSeqLen(rs: seq<Record>): Option<nat>
    decreases |rs|
  {
    if rs == [] then None
    else
      var len := |rs[|rs| - 1].sequence|;
      match ShortestSeqLen(rs[..|rs| - 1])
      case None => Some(len)
      case Some(m) => Some(Min(m, len))
  }

  /** Running maximum of the longest ORF length of frame `frame`. */
  function LongestOrfInFrame(rs: seq<Record>, frame: nat): nat
    decreases |rs|
  {
    if rs == [] then 0
    else Max(LongestOrfInFrame(rs[..|rs| - 1], frame), LongestLength(OrfsOf(rs[|rs| - 1].sequence, frame)))
  }

  /** Longest ORF of frame 2 and its start: replaced only by a strictly longer one. */
  function Rf3Best(rs: seq<Record>): Orf
    decreases |rs|
  {
    if rs == [] then Orf(0, 0)
    else
      Rf3Step(Rf3Best(rs[..|rs| - 1]), OrfsOf(rs[|rs| - 1].sequence, 2))
  }

  /** The first longest of orfs when it is strictly longer than prev, else prev. */
  function Rf3Step(prev: Orf, orfs: seq<Orf>): Orf {
    if orfs != [] && orfs[FirstLongest(orfs)].length > prev.length then orfs[FirstLongest(orfs)] else prev
  }

  /** Longest ORF length of s over frames 0 .. f - 1 (0 if none). */
  function LongestOrfUpTo(s: string, f: nat): nat {
    if f == 0 then 0 else Max(LongestOrfUpTo(s, f - 1), LongestLength(OrfsOf(s, f - 1)))
  }

  function LongestOrfAnyFrame(rs: seq<Record>): nat
    decreases |rs|
  {
    if rs == [] then 0
    else Max(LongestOrfAnyFrame(rs[..|rs| - 1]), LongestOrfUpTo(rs[|rs| - 1].sequence, 3))
  }

  /** `seq_dict`: id to sequence, a later record overwriting an earlier one. */
  function IdMap(rs: seq<Record>): map<string, string>
    decreases |rs|
  {
    if rs == [] then map[] else IdMap(rs[..|rs| - 1])[rs[|rs| - 1].id := rs[|rs| - 1].sequence]
  }

  /** `seqs`: the sequences, in record order. */
  function Sequences(rs: seq<Record>): seq<string> {
    seq(|rs|, n requires 0 <= n < |rs| => rs[n].sequence)
  }

  /** `longest_orf_target_seq` (lines 86-96). */
  function TargetOrfLength(rs: seq<Record>, target: string): Option<nat> {
    if target in IdMap(rs) then Some(LongestOrfUpTo(IdMap(rs)[target], 3)) else None
  }

  /** The 7-mer candidate loop (lines 111-117) over a prefix of the candidates. */
  function PickCandidate(cands: seq<string>, table: Table): Choice
    decreases |cands|
  {
    if cands == [] then Choice(None, 0)
    else
      var prev := PickCandidate(cands[..|cands| - 1], table);
      var c := cands[|cands| - 1];
      if Get(table, c) > prev.count then Choice(Some(c), Get(table, c)) else prev
  }

  /** The outcome of `analyze_fasta` on the records. */
  function Analyze(rs: seq<Record>): Result<Report, AnalysisError> {
    var seqs := Sequences(rs);
    var table6 := KmerCounts(seqs, 6);
    if table6 == map[] then Failure(EmptyCountTable(6))
    else
      var table12 := KmerCounts(seqs, 12);
      if table12 == map[] then Failure(EmptyCountTable(12))
      else
        assert rs != [];
        var best3 := Rf3Best(rs);
        var pick := PickCandidate(Candidates7, KmerCounts(seqs, 7));
        Success(Report(
          |rs|, LongestSeqLen(rs), ShortestSeqLen(rs).value,
          LongestOrfInFrame(rs, 1), best3.start, best3.length, LongestOrfAnyFrame(rs),
          TargetOrfLength(rs, TargetId),
          MaxValue(table6), TieCount(table12),
          pick.candidate, pick.count))
  }

  // ---------------------------------------------------------------------------
  // The imperative analysis
  // ---------------------------------------------------------------------------

  /** The per-record loop of `analyze_fasta` (lines 53-83): the running
      statistics, the list of sequences and the id dictionary. */
  method ScanRecords(records: seq<Record>)
    returns (recordCount: nat, longestSeqLen: nat, shortestSeqLen: Option<nat>,
             longestOrfRf2: nat, longestOrfRf3Start: nat, longestOrfRf3Len: nat,
             longestOrfAnyFrame: nat, seqs: seq<string>, seqDict: map<string, string>)
    ensures recordCount == |records|
    ensures longestSeqLen == LongestSeqLen(records)
    ensures shortestSeqLen == ShortestSeqLen(records)
    ensures longestOrfRf2 == LongestOrfInFrame(records, 1)
    ensures Orf(longestOrfRf3Start, longestOrfRf3Len) == Rf3Best(records)
    ensures longestOrfAnyFrame == LongestOrfAnyFrame(records)
    ensures seqs == Sequences(records)
    ensures seqDict == IdMap(records)
  {
    recordCount := 0;
    longestSeqLen := 0;
    shortestSeqLen := None;
    longestOrfRf2 := 0;
    longestOrfRf3Start := 0;
    longestOrfRf3Len := 0;
    longestOrfAnyFrame := 0;
    seqs := [];
    seqDict := map[];

    var i := 0;
    while i < |records|
      invariant i <= |records|
      invariant recordCount == i
      invariant longestSeqLen == LongestSeqLen(records[..i])
      invariant shortestSeqLen == ShortestSeqLen(records[..i])
      invariant longestOrfRf2 == LongestOrfInFrame(records[..i], 1)
      invariant Orf(longestOrfRf3Start, longestOrfRf3Len) == Rf3Best(records[..i])
      invariant longestOrfAnyFrame == LongestOrfAnyFrame(records[..i])
      invariant seqs == Sequences(records[..i])
      invariant seqDict == IdMap(records[..i])
    {
      var record := records[i];
      FoldStep(records, i);
      recordCount := recordCount + 1;
      var s := record.sequence;
      seqs := seqs + [s];
      seqDict := seqDict[record.id := s];

      longestSeqLen := Max(longestSeqLen, |s|);
      shortestSeqLen := Some(if shortestSeqLen.Some? then Min(shortestSeqLen.value, |s|) else |s|);

      longestOrfRf2 := RaiseByFrame1(longestOrfRf2, s);
      longestOrfRf3Start, longestOrfRf3Len := ReplaceByFrame2(longestOrfRf3Start, longestOrfRf3Len, s);
      longestOrfAnyFrame := RaiseByAllFrames(longestOrfAnyFrame, s);
      i := i + 1;
    }
    assert records[..i] == records;
  }

  /** Each specification function on the first i + 1 records, from its value
      on the first i records and record i. */
  lemma FoldStep(records: seq<Record>, i: nat)
    requires i < |records|
    ensures LongestSeqLen(records[..i + 1]) == Max(LongestSeqLen(records[..i]), |records[i].sequence|)
    ensures ShortestSeqLen(records[..i + 1]) ==
      Some(if ShortestSeqLen(records[..i]).Some? then Min(ShortestSeqLen(records[..i]).value, |records[i].sequence|)
           else |records[i].sequence|)
    ensures LongestOrfInFrame(records[..i + 1], 1) ==
      Max(LongestOrfInFrame(records[..i], 1), LongestLength(OrfsOf(records[i].sequence, 1)))
    ensures Rf3Best(records[..i + 1]) == Rf3Step(Rf3Best(records[..i]), OrfsOf(records[i].sequence, 2))
    ensures LongestOrfAnyFrame(records[..i + 1]) ==
      Max(LongestOrfAnyFrame(records[..i]), LongestOrfUpTo(records[i].sequence, 3))
    ensures Sequences(records[..i + 1]) == Sequences(records[..i]) + [records[i].sequence]
    ensures IdMap(records[..i + 1]) == IdMap(records[..i])[records[i].id := records[i].sequence]
  {
    var done := records[..i + 1];
    assert done[..|done| - 1] == records[..i] && done[|done| - 1] == records[i];
  }

  /** Lines 65-68: raises the running maximum to the longest ORF of frame 1. */
  method RaiseByFrame1(longest: nat, s: string) returns (raised: nat)
    ensures raised == Max(longest, LongestLength(OrfsOf(s, 1)))
  {
    raised := longest;
    var orfsRf2 := FindOrfs(s, 1);
    if orfsRf2 != [] {
      var maxOrfRf2 := orfsRf2[FirstLongest(orfsRf2)].length;
      raised := Max(raised, maxOrfRf2);
    }
  }

  /** Lines 71-76: replaces the best frame-2 ORF by the first longest ORF of
      frame 2 of s, only when that one is strictly longer. */
  method ReplaceByFrame2(start: nat, length: nat, s: string) returns (start': nat, length': nat)
    ensures Orf(start', length') == Rf3Step(Orf(start, length), OrfsOf(s, 2))
  {
    start', length' := start, length;
    var orfsRf3 := FindOrfs(s, 2);
    if orfsRf3 != [] {
      var maxOrfRf3 := orfsRf3[FirstLongest(orfsRf3)];
      if maxOrfRf3.length > length' {
        length' := maxOrfRf3.length;
        start' := maxOrfRf3.start;
      }
    }
  }

  /** The loop `for frame in range(3)` of lines 79-83 and 90-94: raises the
      running maximum `longest` to the longest ORF of s in frames 0-2. */
  method RaiseByAllFrames(longest: nat, s: string) returns (raised: nat)
    ensures raised == Max(longest, LongestOrfUpTo(s, 3))
  {
    raised := longest;
    var frame := 0;
    while frame < 3
      invariant frame <= 3
      invariant raised == Max(longest, LongestOrfUpTo(s, frame))
    {
      var orfs := FindOrfs(s, frame);
      if orfs != [] {
        var maxOrf := orfs[FirstLongest(orfs)].length;
        raised := Max(raised, maxOrf);
      }
      frame := frame + 1;
    }
  }

  /** Lines 86-96: the longest ORF over frames 0-2 of the sequence stored
      under the target id, or None when the id is absent. */
  method TargetLongestOrf(seqDict: map<string, string>, targetId: string) returns (longest: Option<nat>)
    ensures longest == if targetId in seqDict then Some(LongestOrfUpTo(seqDict[targetId], 3)) else None
  {
    if targetId in seqDict {
      var targetSeq := seqDict[targetId];
      var best := RaiseByAllFrames(0, targetSeq);
      longest := Some(best);
    } else {
      longest := None;
    }
  }

  /** Lines 111-117: the candidate with the largest positive count, the first
      one on a tie, and that count. */
  method BestCandidate(candidates: seq<string>, repeats: Table) returns (maxCandidate: Option<string>, maxCandidateCount: nat)
    ensures Choice(maxCandidate, maxCandidateCount) == PickCandidate(candidates, repeats)
  {
    maxCandidateCount := 0;
    maxCandidate := None;
    var c := 0;
    while c < |candidates|
      invariant c <= |candidates|
      invariant Choice(maxCandidate, maxCandidateCount) == PickCandidate(candidates[..c], repeats)
    {
      assert candidates[..c + 1][..c] == candidates[..c];
      var countC := Get(repeats, candidates[c]);
      if countC > maxCandidateCount {
        maxCandidateCount := countC;
        maxCandidate := Some(candidates[c]);
      }
      c := c + 1;
    }
    assert candidates[..c] == candidates;
  }

  /** `analyze_fasta`, with the records given as a list. */
  method AnalyzeFasta(records: seq<Record>) returns (result: Result<Report, AnalysisError>)
    ensures result == Analyze(records)
  {
    var recordCount, longestSeqLen, shortestSeqLen, longestOrfRf2, longestOrfRf3Start,
        longestOrfRf3Len, longestOrfAnyFrame, seqs, seqDict := ScanRecords(records);

    var longestOrfTargetSeq := TargetLongestOrf(seqDict, TargetId);

    var repeats6 := CountRepeats(seqs, 6);
    if repeats6 == map[] {
      return Failure(EmptyCountTable(6));
    }
    var maxCount6 := MaxValue(repeats6);

    var repeats12 := CountRepeats(seqs, 12);
    if repeats12 == map[] {
      return Failure(EmptyCountTable(12));
    }
    var maxCount12 := MaxValue(repeats12);
    var max12Count := |set w | w in repeats12 && repeats12[w] == maxCount12|;

    var repeats7 := CountRepeats(seqs, 7);
    var maxCandidate, maxCandidateCount := BestCandidate(Candidates7, repeats7);

    result := Success(Report(
      recordCount, longestSeqLen, shortestSeqLen.value,
      longestOrfRf2, longestOrfRf3Start, longestOrfRf3Len, longestOrfAnyFrame,
      longestOrfTargetSeq,
      maxCount6, max12Count,
      maxCandidate, maxCandidateCount));
  }
}
