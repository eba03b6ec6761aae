/**
 * The two scanners AlignCommand runs over the bases of an alt locus:
 * getNblocks lists the maximal runs of 'N', getNonNblocks the stretches
 * between them. Tuples are 0-based, start inclusive, end exclusive.
 */
module NBlocks {
  import opened Bases

  datatype Tuple = Tuple(start: int, end: int)

  /** Position k is of the kind sought: an 'N' when wantN, any other base otherwise. */
  predicate Wanted(s: seq<byte>, k: int, wantN: bool)
    requires 0 <= k < |s|
  {
    (s[k] == N) == wantN
  }

  /** t is a stretch of s made only of positions of the kind sought. */
  predicate IsStretch(s: seq<byte>, t: Tuple, wantN: bool)
  {
    && 0 <= t.start <= t.end <= |s|
    && forall k :: t.start <= k < t.end ==> Wanted(s, k, wantN)
  }

  /** Nothing of the kind sought just before the stretch. */
  predicate StartsRun(s: seq<byte>, t: Tuple, wantN: bool)
    requires 0 <= t.start <= |s|
  {
    t.start == 0 || !Wanted(s, t.start - 1, wantN)
  }

  /** Nothing of the kind sought just after the stretch. */
  predicate EndsRun(s: seq<byte>, t: Tuple, wantN: bool)
    requires 0 <= t.end <= |s|
  {
    t.end == |s| || !Wanted(s, t.end, wantN)
  }

  /** A non-empty stretch that cannot be extended on either side. */
  predicate IsMaximalRun(s: seq<byte>, t: Tuple, wantN: bool)
  {
    IsStretch(s, t, wantN) && t.start < t.end && StartsRun(s, t, wantN) && EndsRun(s, t, wantN)
  }

  /** Tuples in ascending order with a gap between consecutive ones. */
  predicate Ascending(r: seq<Tuple>)
  {
    forall i, j :: 0 <= i < j < |r| ==> r[i].end < r[j].start
  }

  /** Position k lies in one of the tuples of r. */
  predicate Covered(r: seq<Tuple>, k: int)
  {
    exists i :: 0 <= i < |r| && r[i].start <= k < r[i].end
  }

  /** Every position of the kind sought lies in some tuple. */
  predicate Covers(s: seq<byte>, r: seq<Tuple>, wantN: bool)
  {
    forall k :: 0 <= k < |s| && Wanted(s, k, wantN) ==> Covered(r, k)
  }

  /** Appending a tuple keeps what was covered and covers the tuple itself. */
  lemma CoveredAppend(r: seq<Tuple>, t: Tuple, lo: int, hi: int)
    ensures forall k :: lo <= k < hi && Covered(r, k) ==> Covered(r + [t], k)
    ensures forall k :: t.start <= k < t.end ==> Covered(r + [t], k)
  {
    forall k | lo <= k < hi && Covered(r, k)
      ensures Covered(r + [t], k)
    {
      var i :| 0 <= i < |r| && r[i].start <= k < r[i].end;
      assert (r + [t])[i] == r[i];
    }
    forall k | t.start <= k < t.end
      ensures Covered(r + [t], k)
    {
      assert (r + [t])[|r|] == t;
    }
  }

  /** r lists, in order, every maximal run of s of the kind sought. */
  predicate MaximalRuns(s: seq<byte>, r: seq<Tuple>, wantN: bool)
  {
    && (forall i :: 0 <= i < |r| ==> IsMaximalRun(s, r[i], wantN))
    && Ascending(r)
    && Covers(s, r, wantN)
  }

  /**
   * getNblocks: scans the bytes once; a byte other than 'N' closes the
   * current run (when non-empty) and moves start past itself, and a run
   * reaching the end is closed after the loop.
   */
  method GetNblocks(s: seq<byte>) returns (list: seq<Tuple>)
    ensures MaximalRuns(s, list, true)
  {
    list := [];
    var start := 0;
    var stop := start;
    while stop < |s|
      invariant 0 <= start <= stop <= |s|
      invariant IsStretch(s, Tuple(start, stop), true) && StartsRun(s, Tuple(start, stop), true)
      invariant forall i :: 0 <= i < |list| ==> IsMaximalRun(s, list[i], true) && list[i].end < start
      invariant Ascending(list)
      invariant forall k :: 0 <= k < start && Wanted(s, k, true) ==> Covered(list, k)
    {
      var b := s[stop];
      if b != N {
        if start < stop {
          CoveredAppend(list, Tuple(start, stop), 0, start);
          list := list + [Tuple(start, stop)];
        }
        start := stop + 1;
      }
      stop := stop + 1;
    }
    if start < stop {
      CoveredAppend(list, Tuple(start, stop), 0, start);
      list := list + [Tuple(start, stop)];
    }
  }

  /** What getNonNblocks returns: the closed stretches, then the open trailing one. */
  predicate NonNBlocks(s: seq<byte>, r: seq<Tuple>)
  {
    && |r| >= 1
    && (forall i :: 0 <= i < |r| - 1 ==> IsMaximalRun(s, r[i], false) && r[i].end < |s|)
    && IsStretch(s, r[|r| - 1], false) && StartsRun(s, r[|r| - 1], false) && r[|r| - 1].end == |s|
    && Ascending(r)
    && Covers(s, r, false)
  }

  /**
   * getNonNblocks: an 'N' closes the current stretch (when non-empty) and
   * moves start past itself; after the loop the stretch from start to the
   * end is appended whether or not it is empty.
   */
  method GetNonNblocks(s: seq<byte>) returns (list: seq<Tuple>)
    ensures NonNBlocks(s, list)
  {
    list := [];
    var start := 0;
    var stop := start;
    while stop < |s|
      invariant 0 <= start <= stop <= |s|
      invariant IsStretch(s, Tuple(start, stop), false) && StartsRun(s, Tuple(start, stop), false)
      invariant forall i :: 0 <= i < |list| ==> IsMaximalRun(s, list[i], false) && list[i].end < start
      invariant Ascending(list)
      invariant forall k :: 0 <= k < start && Wanted(s, k, false) ==> Covered(list, k)
    {
      var b := s[stop];
      if b == N {
        if start != stop {
          CoveredAppend(list, Tuple(start, stop), 0, start);
          list := list + [Tuple(start, stop)];
        }
        start := stop + 1;
      }
      stop := stop + 1;
    }
    CoveredAppend(list, Tuple(start, stop), 0, start);
    list := list + [Tuple(start, stop)];
  }

  // ---------------------------------------------------------------------
  // Consequences of the characterisations

  /** There are no N blocks exactly when there is no 'N'. */
  lemma NoBlocksIffNoN(s: seq<byte>, r: seq<Tuple>)
    requires MaximalRuns(s, r, true)
    ensures r == [] <==> forall k :: 0 <= k < |s| ==> s[k] != N
  {
    assert |r| > 0 ==> Wanted(s, r[0].start, true);
    assert forall k :: 0 <= k < |s| && s[k] == N ==> Wanted(s, k, true);
  }

  /** Tuples of an ascending list of non-empty tuples start at least two apart. */
  lemma {:induction false} AscendingSpread(r: seq<Tuple>)
    requires Ascending(r) && |r| >= 1
    requires forall i :: 0 <= i < |r| ==> r[i].start < r[i].end
    ensures r[|r| - 1].start >= r[0].start + 2 * (|r| - 1)
  {
    if |r| > 1 {
      AscendingSpread(r[..|r| - 1]);
      assert r[|r| - 2].end < r[|r| - 1].start;
    }
  }

  /** An all-'N' input is one block covering everything. */
  lemma AllNIsOneBlock(s: seq<byte>, r: seq<Tuple>)
    requires MaximalRuns(s, r, true)
    requires |s| > 0 && forall k :: 0 <= k < |s| ==> s[k] == N
    ensures r == [Tuple(0, |s|)]
  {
    assert Wanted(s, 0, true);
    forall j | 0 <= j < |r|
      ensures r[j] == Tuple(0, |s|)
    {
      assert StartsRun(s, r[j], true) && EndsRun(s, r[j], true);
    }
    AscendingSpread(r);
  }

  /**
   * The trailing tuple of getNonNblocks is empty exactly when the input is
   * empty or ends in 'N'.
   */
  lemma NonNTrailingEmpty(s: seq<byte>, r: seq<Tuple>)
    requires NonNBlocks(s, r)
    ensures r[|r| - 1].start == r[|r| - 1].end <==> |s| == 0 || s[|s| - 1] == N
  {
    var last := r[|r| - 1];
    if |s| > 0 && last.start < last.end {
      assert Wanted(s, |s| - 1, false);
    }
  }

  /** Two maximal runs of the same kind that share a position are the same run. */
  lemma SameRun(s: seq<byte>, t: Tuple, u: Tuple, k: int, wantN: bool)
    requires IsMaximalRun(s, t, wantN) && IsMaximalRun(s, u, wantN)
    requires t.start <= k < t.end && u.start <= k < u.end
    ensures t == u
  {
    assert t.start == u.start;
    assert t.end == u.end;
  }

  /** Every maximal run of 'N' appears in a list that satisfies MaximalRuns. */
  lemma MaximalRunListed(s: seq<byte>, r: seq<Tuple>, t: Tuple)
    requires MaximalRuns(s, r, true) && IsMaximalRun(s, t, true)
    ensures exists i :: 0 <= i < |r| && r[i] == t
  {
    assert Wanted(s, t.start, true);
    var i :| 0 <= i < |r| && r[i].start <= t.start < r[i].end;
    SameRun(s, r[i], t, t.start, true);
  }

  /**
   * The short-gap rule of run: an N block of at most 10 bases triggers the
   * file emission, a longer one is only reported.
   */
  predicate IsShortBlock(t: Tuple)
  {
    t.end - t.start <= 10
  }

  /**
   * A list satisfying MaximalRuns has a short block exactly when the bases
   * have a maximal run of 'N' of at most 10 bases.
   */
  lemma ShortBlockIff(s: seq<byte>, r: seq<Tuple>)
    requires MaximalRuns(s, r, true)
    ensures (exists i :: 0 <= i < |r| && IsShortBlock(r[i]))
        <==> (exists t :: IsMaximalRun(s, t, true) && IsShortBlock(t))
  {
    if t :| IsMaximalRun(s, t, true) && IsShortBlock(t) {
      MaximalRunListed(s, r, t);
    }
  }
}
