/** Open reading frames in one forward reading frame of a DNA sequence
    (`find_orfs`, Genomic_Course3_testfile2.py lines 10-28). */
module Orfs {
  import opened Wrappers

  /** An ORF as reported: the 1-based position, in the unshifted sequence,
      of the first nucleotide of its start codon, and its length. */
  datatype Orf = Orf(start: nat, length: nat)

  /** `codon == 'ATG'`, compared character by character. */
  predicate IsStart(c: string) {
    |c| == 3 && c[0] == 'A' && c[1] == 'T' && c[2] == 'G'
  }

  /** `codon in {'TAA', 'TAG', 'TGA'}`, compared character by character. */
  predicate IsStop(c: string) {
    |c| == 3 && c[0] == 'T' && ((c[1] == 'A' && (c[2] == 'A' || c[2] == 'G')) || (c[1] == 'G' && c[2] == 'A'))
  }

  /** The two codon tests are the string comparisons of the source. */
  lemma CodonTests(c: string)
    ensures IsStart(c) <==> c == "ATG"
    ensures IsStop(c) <==> c in {"TAA", "TAG", "TGA"}
  {
    if |c| == 3 {
      assert c == [c[0], c[1], c[2]];
    }
  }

  /** The three nucleotides from 0-based position j. */
  function Codon(s: string, j: nat): string
    requires j + 3 <= |s|
  {
    s[j..j + 3]
  }

  /** 0-based position of the first nucleotide of the ORF, and one past its last. */
  function Begin(o: Orf): int { o.start - 1 }
  function End(o: Orf): int { o.start - 1 + o.length }

  // ---------------------------------------------------------------------------
  // Specification of the scan
  // ---------------------------------------------------------------------------

  /** The ORFs found by scanning s codon by codon from 0-based position j, with
      `open` the position of the start codon of the ORF open at that point.
      Positions are those of the unshifted sequence: position j of the scan is
      index j - frame of the shifted string the source walks over. */
  function ScanFrom(s: string, j: nat, open: Option<nat>): seq<Orf>
    requires open.Some? ==> open.value + 3 <= j <= |s|
    decreases |s| - j
  {
    if j + 3 > |s| then
      if open.Some? then [Orf(open.value + 1, |s| - open.value)] else []
    else
      var c := Codon(s, j);
      if open.None? then
        ScanFrom(s, j + 3, if IsStart(c) then Some(j) else None)
      else if IsStop(c) then
        [Orf(open.value + 1, j + 3 - open.value)] + ScanFrom(s, j + 3, None)
      else
        ScanFrom(s, j + 3, open)
  }

  /** The result of `find_orfs(s, frame)`. */
  function OrfsOf(s: string, frame: nat): seq<Orf> {
    ScanFrom(s, frame, None)
  }

  // ---------------------------------------------------------------------------
  // The imperative scan
  // ---------------------------------------------------------------------------

  /** `find_orfs`: drop `frame` characters, walk the rest in non-overlapping
      codons with one optional open start, and report each ORF. */
  method FindOrfs(s: string, frame: nat) returns (orfs: seq<Orf>)
    ensures orfs == OrfsOf(s, frame)
  {
    var from := if frame <= |s| then frame else |s|;  // a slice start past the end yields ""
    var t := s[from..];
    orfs := [];
    var startPos: Option<nat> := None;
    ghost var open: Option<nat> := None;
    ghost var rest := OrfsOf(s, frame);
    var i := 0;
    while i + 3 <= |t|
      invariant i <= |t|
      invariant startPos.None? <==> open.None?
      invariant startPos.Some? ==> startPos.value + 3 <= i && open.value == startPos.value + frame
      invariant rest == ScanFrom(s, frame + i, open)
      invariant orfs + rest == OrfsOf(s, frame)
      decreases |t| - i
    {
      var codon := t[i..i + 3];
      SuffixCodon(s, from, i);
      ScanStep(s, frame + i, open);
      ghost var emitted := Emitted(s, frame + i, open);
      ghost var next := ScanFrom(s, frame + i + 3, NextOpen(s, frame + i, open));
      AppendAssoc(orfs, emitted, next);
      ghost var before := orfs;
      if startPos.None? {
        if IsStart(codon) {
          startPos := Some(i);
        }
        AppendNil(orfs);
      } else if IsStop(codon) {
        orfs := orfs + [Orf(startPos.value + frame + 1, i + 3 - startPos.value)];
        startPos := None;
      } else {
        AppendNil(orfs);
      }
      assert orfs == before + emitted;
      assert orfs + next == OrfsOf(s, frame);
      open := NextOpen(s, frame + i, open);
      rest := next;
      i := i + 3;
    }
    if startPos.Some? {
      orfs := orfs + [Orf(startPos.value + frame + 1, |t| - startPos.value)];
    }
  }

  /** The ORF that reading the codon at j closes, if any. */
  function Emitted(s: string, j: nat, open: Option<nat>): seq<Orf>
    requires j + 3 <= |s| && (open.Some? ==> open.value <= j)
  {
    if open.Some? && IsStop(Codon(s, j)) then [Orf(open.value + 1, j + 3 - open.value)] else []
  }

  /** The ORF open after reading the codon at j. */
  function NextOpen(s: string, j: nat, open: Option<nat>): Option<nat>
    requires j + 3 <= |s|
  {
    if open.None? then (if IsStart(Codon(s, j)) then Some(j) else None)
    else if IsStop(Codon(s, j)) then None
    else open
  }

  /** Regrouping the list built so far, the ORF just closed and the rest of
      the scan; stated once so that the loop step does not redo it. */
  lemma AppendAssoc(a: seq<Orf>, b: seq<Orf>, c: seq<Orf>)
    ensures a + (b + c) == (a + b) + c
  {
  }

  lemma SuffixCodon(s: string, from: nat, i: nat)
    requires from + i + 3 <= |s|
    ensures s[from..][i..i + 3] == Codon(s, from + i)
  {
  }

  /** A codon that closes nothing leaves the list as it is. */
  lemma AppendNil(a: seq<Orf>)
    ensures a + [] == a
  {
  }

  /** One codon of the scan: what it emits and how the open ORF changes. */
  lemma ScanStep(s: string, j: nat, open: Option<nat>)
    requires j + 3 <= |s| && (open.Some? ==> open.value + 3 <= j)
    ensures ScanFrom(s, j, open) == Emitted(s, j, open) + ScanFrom(s, j + 3, NextOpen(s, j, open))
  {
  }

  // ---------------------------------------------------------------------------
  // What the scan promises
  // ---------------------------------------------------------------------------

  /** The k-th codon counted from position `from`. */
  function CodonAt(s: string, from: nat, k: nat): string
    requires from + 3 * k + 3 <= |s|
  {
    Codon(s, from + 3 * k)
  }

  /** No stop codon in frame with `from` lies strictly after `from` and ends at
      or before `to`. */
  ghost predicate NoStopBetween(s: string, from: nat, to: nat)
    requires to <= |s|
  {
    forall k: nat :: 0 < k && from + 3 * k + 3 <= to ==> !IsStop(CodonAt(s, from, k))
  }

  /** o lies inside s, starts with ATG, and its start is in frame `frame`. */
  ghost predicate WellFormed(s: string, frame: nat, o: Orf) {
    && o.start >= frame + 1
    && (o.start - 1 - frame) % 3 == 0
    && o.length >= 3
    && End(o) <= |s|
    && IsStart(Codon(s, o.start - 1))
  }

  /** o ends with the first in-frame stop codon after its start codon. */
  ghost predicate StopTerminated(s: string, o: Orf) {
    && o.start >= 1
    && o.length >= 6
    && o.length % 3 == 0
    && End(o) <= |s|
    && IsStop(Codon(s, End(o) - 3))
    && NoStopBetween(s, o.start - 1, End(o) - 3)
  }

  /** o has no in-frame stop codon after its start and runs to the end of s. */
  ghost predicate RunsToEnd(s: string, o: Orf) {
    && o.start >= 1
    && End(o) == |s|
    && NoStopBetween(s, o.start - 1, |s|)
  }

  /** Each ORF ends at or before any later one begins. */
  ghost predicate Ordered(orfs: seq<Orf>) {
    forall m, n :: 0 <= m < n < |orfs| ==> End(orfs[m]) <= Begin(orfs[n])
  }

  /** Position q lies inside one of the ORFs. */
  ghost predicate Covers(orfs: seq<Orf>, q: int) {
    exists n :: 0 <= n < |orfs| && Begin(orfs[n]) <= q < End(orfs[n])
  }

  /** The scan state before codon m of frame `frame`: when an ORF is open, its
      ATG is codon om of the frame, an earlier one, and no stop codon has been
      met since. */
  ghost predicate ScanState(s: string, frame: nat, m: nat, open: Option<nat>, om: nat) {
    open.Some? ==>
      && open.value == frame + 3 * om
      && om < m
      && frame + 3 * m <= |s|
      && IsStart(CodonAt(s, frame, om))
      && NoStopBetween(s, open.value, frame + 3 * m)
  }

  /** Every ORF in the list begins at or after position lo. */
  ghost predicate BeginsFrom(orfs: seq<Orf>, lo: int) {
    forall n :: 0 <= n < |orfs| ==> Begin(orfs[n]) >= lo
  }

  /** Every ORF in the list is well formed for frame `frame` of s. */
  ghost predicate AllWellFormed(s: string, frame: nat, orfs: seq<Orf>) {
    forall n :: 0 <= n < |orfs| ==> WellFormed(s, frame, orfs[n])
  }

  /** Every ORF but the last is stop-terminated; the last is stop-terminated or
      runs to the end of s. */
  ghost predicate Terminations(s: string, orfs: seq<Orf>) {
    && (forall n :: 0 <= n < |orfs| - 1 ==> StopTerminated(s, orfs[n]))
    && (|orfs| > 0 ==> StopTerminated(s, orfs[|orfs| - 1]) || RunsToEnd(s, orfs[|orfs| - 1]))
  }

  /** Every ATG codon of frame `frame` from position frame + 3 * m on lies inside an ORF. */
  ghost predicate CoversStartsFrom(s: string, frame: nat, m: nat, orfs: seq<Orf>) {
    forall k: nat :: m <= k && frame + 3 * k + 3 <= |s| && IsStart(CodonAt(s, frame, k))
      ==> Covers(orfs, frame + 3 * k)
  }

  /** The first ORF of the scan is the open one, when there is one, and it
      reaches at least the scan position. */
  ghost predicate OpenComesFirst(orfs: seq<Orf>, open: Option<nat>, j: nat) {
    open.Some? ==> |orfs| > 0 && Begin(orfs[0]) == open.value && End(orfs[0]) >= j
  }

  lemma {:induction false} ScanFirst(s: string, frame: nat, m: nat, open: Option<nat>, om: nat)
    requires ScanState(s, frame, m, open, om)
    ensures BeginsFrom(ScanFrom(s, frame + 3 * m, open), if open.Some? then open.value else frame + 3 * m)
    ensures OpenComesFirst(ScanFrom(s, frame + 3 * m, open), open, frame + 3 * m)
    decreases |s| - m
  {
    var j := frame + 3 * m;
    if j + 3 <= |s| {
      var c := Codon(s, j);
      if open.None? && IsStart(c) {
        ScanFirst(s, frame, m + 1, Some(j), m);
      } else if open.None? {
        ScanFirst(s, frame, m + 1, None, 0);
      } else if IsStop(c) {
        ScanFirst(s, frame, m + 1, None, 0);
      } else {
        OpenScanContinues(s, frame, m, open.value, om);
        ScanFirst(s, frame, m + 1, open, om);
      }
    }
  }

  lemma {:induction false} ScanWellFormed(s: string, frame: nat, m: nat, open: Option<nat>, om: nat)
    requires ScanState(s, frame, m, open, om)
    ensures AllWellFormed(s, frame, ScanFrom(s, frame + 3 * m, open))
    decreases |s| - m
  {
    var j := frame + 3 * m;
    if j + 3 <= |s| {
      var c := Codon(s, j);
      if open.None? && IsStart(c) {
        ScanWellFormed(s, frame, m + 1, Some(j), m);
      } else if open.None? {
        ScanWellFormed(s, frame, m + 1, None, 0);
      } else if IsStop(c) {
        ScanWellFormed(s, frame, m + 1, None, 0);
        assert CodonAt(s, frame, om) == Codon(s, open.value);
      } else {
        OpenScanContinues(s, frame, m, open.value, om);
        ScanWellFormed(s, frame, m + 1, open, om);
      }
    } else if open.Some? {
      assert CodonAt(s, frame, om) == Codon(s, open.value);
    }
  }

  lemma {:induction false} ScanOrdered(s: string, frame: nat, m: nat, open: Option<nat>, om: nat)
    requires ScanState(s, frame, m, open, om)
    ensures Ordered(ScanFrom(s, frame + 3 * m, open))
    decreases |s| - m
  {
    var j := frame + 3 * m;
    if j + 3 <= |s| {
      var c := Codon(s, j);
      if open.None? && IsStart(c) {
        ScanOrdered(s, frame, m + 1, Some(j), m);
      } else if open.None? {
        ScanOrdered(s, frame, m + 1, None, 0);
      } else if IsStop(c) {
        var rest := ScanFrom(s, frame + 3 * (m + 1), None);
        var r := ScanFrom(s, j, open);
        assert r == [Orf(open.value + 1, j + 3 - open.value)] + rest;
        ScanOrdered(s, frame, m + 1, None, 0);
        ScanFirst(s, frame, m + 1, None, 0);
        forall a, b | 0 <= a < b < |r| ensures End(r[a]) <= Begin(r[b]) {
          assert r[b] == rest[b - 1];
          if a > 0 {
            assert r[a] == rest[a - 1];
          }
        }
      } else {
        OpenScanContinues(s, frame, m, open.value, om);
        ScanOrdered(s, frame, m + 1, open, om);
      }
    }
  }

  lemma {:induction false} ScanTerminations(s: string, frame: nat, m: nat, open: Option<nat>, om: nat)
    requires ScanState(s, frame, m, open, om)
    ensures Terminations(s, ScanFrom(s, frame + 3 * m, open))
    decreases |s| - m
  {
    var j := frame + 3 * m;
    if j + 3 <= |s| {
      var c := Codon(s, j);
      if open.None? {
        var next := if IsStart(c) then Some(j) else None;
        assert ScanFrom(s, j, open) == ScanFrom(s, j + 3, next);
        ScanTerminations(s, frame, m + 1, next, if IsStart(c) then m else 0);
      } else if IsStop(c) {
        ScanTerminations(s, frame, m + 1, None, 0);
        TerminationsStopStep(s, frame, m, open.value, om);
      } else {
        assert ScanFrom(s, j, open) == ScanFrom(s, j + 3, open);
        OpenScanContinues(s, frame, m, open.value, om);
        ScanTerminations(s, frame, m + 1, open, om);
      }
    } else if open.Some? {
      EndClosesOrf(s, frame, m, open.value, om);
      assert ScanFrom(s, j, open) == [Orf(open.value + 1, |s| - open.value)];
    }
  }

  /** The ORF a stop codon closes, followed by the terminated rest. */
  lemma TerminationsStopStep(s: string, frame: nat, m: nat, p: nat, om: nat)
    requires ScanState(s, frame, m, Some(p), om)
    requires frame + 3 * m + 3 <= |s| && IsStop(Codon(s, frame + 3 * m))
    requires Terminations(s, ScanFrom(s, frame + 3 * m + 3, None))
    ensures Terminations(s, ScanFrom(s, frame + 3 * m, Some(p)))
  {
    var j := frame + 3 * m;
    var first := Orf(p + 1, j + 3 - p);
    var rest := ScanFrom(s, j + 3, None);
    assert ScanFrom(s, j, Some(p)) == [first] + rest;
    StopEndsOrf(s, frame, m, p, om);
    TerminationsCons(s, first, rest);
  }

  lemma TerminationsCons(s: string, first: Orf, rest: seq<Orf>)
    requires StopTerminated(s, first) && Terminations(s, rest)
    ensures Terminations(s, [first] + rest)
  {
    var r := [first] + rest;
    forall n | 0 <= n < |r| - 1 ensures StopTerminated(s, r[n]) {
      if n > 0 {
        assert r[n] == rest[n - 1];
      }
    }
  }

  /** A codon that is not a stop keeps the open ORF's scan state. */
  lemma OpenScanContinues(s: string, frame: nat, m: nat, p: nat, om: nat)
    requires ScanState(s, frame, m, Some(p), om)
    requires frame + 3 * m + 3 <= |s| && !IsStop(Codon(s, frame + 3 * m))
    ensures ScanState(s, frame, m + 1, Some(p), om)
  {
    assert CodonAt(s, p, m - om) == Codon(s, frame + 3 * m);
  }

  /** The ORF that a stop codon at codon m closes is stop-terminated. */
  lemma StopEndsOrf(s: string, frame: nat, m: nat, p: nat, om: nat)
    requires ScanState(s, frame, m, Some(p), om)
    requires frame + 3 * m + 3 <= |s| && IsStop(Codon(s, frame + 3 * m))
    ensures StopTerminated(s, Orf(p + 1, frame + 3 * m + 3 - p))
  {
    assert frame + 3 * m + 3 - p == 3 * (m - om) + 3;
  }

  /** The ORF still open when fewer than 3 characters are left runs to the end. */
  lemma EndClosesOrf(s: string, frame: nat, m: nat, p: nat, om: nat)
    requires ScanState(s, frame, m, Some(p), om)
    requires frame + 3 * m + 3 > |s|
    ensures RunsToEnd(s, Orf(p + 1, |s| - p))
  {
    forall k: nat | 0 < k && p + 3 * k + 3 <= |s|
      ensures !IsStop(CodonAt(s, p, k))
    {
      assert p + 3 * k + 3 <= frame + 3 * m;
    }
  }

  lemma {:induction false} ScanCovers(s: string, frame: nat, m: nat, open: Option<nat>, om: nat)
    requires ScanState(s, frame, m, open, om)
    ensures CoversStartsFrom(s, frame, m, ScanFrom(s, frame + 3 * m, open))
    decreases |s| - m
  {
    var j := frame + 3 * m;
    if j + 3 <= |s| {
      var c := Codon(s, j);
      if open.None? {
        var next := if IsStart(c) then Some(j) else None;
        var nextOm := if IsStart(c) then m else 0;
        var r := ScanFrom(s, j + 3, next);
        assert ScanFrom(s, j, open) == r;
        ScanCovers(s, frame, m + 1, next, nextOm);
        if IsStart(c) {
          ScanFirst(s, frame, m + 1, next, nextOm);
          assert Begin(r[0]) <= j < End(r[0]);
        }
        CoversExtend(s, frame, m, r);
      } else if IsStop(c) {
        ScanCovers(s, frame, m + 1, None, 0);
        CoversStopStep(s, frame, m, open.value);
      } else {
        OpenScanContinues(s, frame, m, open.value, om);
        ScanCovers(s, frame, m + 1, open, om);
        CoversOpenStep(s, frame, m, open.value, om);
      }
    }
  }

  /** The ORF that a stop codon closes covers the ATGs it contains. */
  lemma CoversStopStep(s: string, frame: nat, m: nat, p: nat)
    requires p + 3 <= frame + 3 * m && frame + 3 * m + 3 <= |s| && IsStop(Codon(s, frame + 3 * m))
    requires CoversStartsFrom(s, frame, m + 1, ScanFrom(s, frame + 3 * m + 3, None))
    ensures CoversStartsFrom(s, frame, m, ScanFrom(s, frame + 3 * m, Some(p)))
  {
    var j := frame + 3 * m;
    var first := Orf(p + 1, j + 3 - p);
    var rest := ScanFrom(s, j + 3, None);
    var r := [first] + rest;
    assert ScanFrom(s, j, Some(p)) == r;
    CoversCons(s, frame, m + 1, first, rest);
    assert r[0] == first && Begin(r[0]) <= j < End(r[0]);
    CoversExtend(s, frame, m, r);
  }

  /** While an ORF is open, the ORF covers the codon being read. */
  lemma CoversOpenStep(s: string, frame: nat, m: nat, p: nat, om: nat)
    requires ScanState(s, frame, m, Some(p), om)
    requires frame + 3 * m + 3 <= |s| && !IsStop(Codon(s, frame + 3 * m))
    requires CoversStartsFrom(s, frame, m + 1, ScanFrom(s, frame + 3 * m + 3, Some(p)))
    ensures CoversStartsFrom(s, frame, m, ScanFrom(s, frame + 3 * m, Some(p)))
  {
    var j := frame + 3 * m;
    OpenScanContinues(s, frame, m, p, om);
    var r := ScanFrom(s, j + 3, Some(p));
    assert ScanFrom(s, j, Some(p)) == r;
    ScanFirst(s, frame, m + 1, Some(p), om);
    assert Begin(r[0]) <= j < End(r[0]);
    CoversExtend(s, frame, m, r);
  }

  /** Covering the ATGs from codon m + 1 on, and codon m when it is an ATG,
      is covering them from codon m on. */
  lemma CoversExtend(s: string, frame: nat, m: nat, orfs: seq<Orf>)
    requires CoversStartsFrom(s, frame, m + 1, orfs)
    requires frame + 3 * m + 3 <= |s| && IsStart(CodonAt(s, frame, m)) ==> Covers(orfs, frame + 3 * m)
    ensures CoversStartsFrom(s, frame, m, orfs)
  {
  }

  /** Putting an ORF in front keeps every covered position covered. */
  lemma CoversCons(s: string, frame: nat, m: nat, first: Orf, rest: seq<Orf>)
    requires CoversStartsFrom(s, frame, m, rest)
    ensures CoversStartsFrom(s, frame, m, [first] + rest)
  {
    var r := [first] + rest;
    forall k: nat | m <= k && frame + 3 * k + 3 <= |s| && IsStart(CodonAt(s, frame, k))
      ensures Covers(r, frame + 3 * k)
    {
      var n :| 0 <= n < |rest| && Begin(rest[n]) <= frame + 3 * k < End(rest[n]);
      assert r[n + 1] == rest[n];
    }
  }

  /** Every ORF of `find_orfs(s, frame)` starts with an in-frame ATG and lies
      inside s. The ORFs come in increasing order without overlap. Every one but
      the last ends at the first in-frame stop codon after its ATG, so its length
      is a multiple of 3 and at least 6. The last one either does the same or has
      no stop codon and runs exactly to the end of s, whatever its length. Every
      in-frame ATG of s lies inside some ORF, so an ATG met while an ORF is open
      starts nothing. */
  lemma OrfsOfShape(s: string, frame: nat)
    ensures AllWellFormed(s, frame, OrfsOf(s, frame))
    ensures frame < 3 ==> forall o :: o in OrfsOf(s, frame) ==> (o.start - 1) % 3 == frame
    ensures Ordered(OrfsOf(s, frame))
    ensures Terminations(s, OrfsOf(s, frame))
    ensures CoversStartsFrom(s, frame, 0, OrfsOf(s, frame))
  {
    assert frame + 3 * 0 == frame;
    ScanWellFormed(s, frame, 0, None, 0);
    ScanOrdered(s, frame, 0, None, 0);
    ScanTerminations(s, frame, 0, None, 0);
    ScanCovers(s, frame, 0, None, 0);
  }

  /** A stop-terminated ORF spanning the whole sequence. */
  lemma ExampleStopTerminated()
    ensures OrfsOf("ATGAAATAG", 0) == [Orf(1, 9)]
  {
    var s := "ATGAAATAG";
    assert s[0] == 'A' && s[1] == 'T' && s[2] == 'G' && s[3] == 'A' && s[6] == 'T' && s[7] == 'A' && s[8] == 'G';
    assert IsStart(Codon(s, 0)) && !IsStop(Codon(s, 3)) && IsStop(Codon(s, 6));
  }

  /** An ORF without stop codon runs to the end of the sequence. */
  lemma ExampleUnterminated()
    ensures OrfsOf("ATGAAA", 0) == [Orf(1, 6)]
  {
    var s := "ATGAAA";
    assert s[0] == 'A' && s[1] == 'T' && s[2] == 'G' && s[3] == 'A';
    assert IsStart(Codon(s, 0)) && !IsStop(Codon(s, 3));
  }

  /** The length of an unterminated ORF counts the trailing nucleotides that do
      not form a whole codon. */
  lemma ExampleUnterminatedPartialCodon()
    ensures OrfsOf("ATGAA", 0) == [Orf(1, 5)]
  {
    var s := "ATGAA";
    assert s[0] == 'A' && s[1] == 'T' && s[2] == 'G';
    assert IsStart(Codon(s, 0));
  }

  /** Frame 0 of "CCATGAAATAGATGCCCTAA" holds no ATG, so it has no ORF. */
  lemma ExampleNoOrfInFrame0()
    ensures OrfsOf("CCATGAAATAGATGCCCTAA", 0) == []
  {
    var s := "CCATGAAATAGATGCCCTAA";
    assert s[0] == 'C' && s[3] == 'T' && s[7] == 'A' && s[10] == 'G' && s[12] == 'T' && s[15] == 'C';
    assert !IsStart(Codon(s, 0)) && !IsStart(Codon(s, 3)) && !IsStart(Codon(s, 6));
    assert !IsStart(Codon(s, 9)) && !IsStart(Codon(s, 12)) && !IsStart(Codon(s, 15));
  }

  /** Its two ORFs are in frame 2; the second ATG is met after the first ORF
      has closed. */
  lemma ExampleTwoOrfs()
    ensures OrfsOf("CCATGAAATAGATGCCCTAA", 2) == [Orf(3, 9), Orf(12, 9)]
  {
    var s := "CCATGAAATAGATGCCCTAA";
    assert IsStart(Codon(s, 2)) && Codon(s, 5)[0] == 'A' && IsStop(Codon(s, 8));
    assert IsStart(Codon(s, 11)) && Codon(s, 14)[0] == 'C' && IsStop(Codon(s, 17));
    assert ScanFrom(s, 14, Some(11)) == [Orf(12, 9)];
    assert ScanFrom(s, 5, Some(2)) == [Orf(3, 9), Orf(12, 9)];
  }
}
