/**
 * Cutting a pairwise alignment into sub-alignments, as AlignCommand does:
 * extractSubAlignment recomputes the 1-based windows of an element range,
 * and splitupAlignmentAtLargeIndels cuts the element list where two
 * oversized indels follow each other.
 */
module AlignSplit {
  import opened Wrappers
  import opened GffAlignment

  // ---------------------------------------------------------------------
  // extractSubAlignment

  /** Reference positions consumed by the first k elements. */
  function RefBefore(es: seq<Element>, k: nat): int
    requires k <= |es|
  {
    if k == 0 then 0 else RefBefore(es, k - 1) + RefConsumed(es[k - 1])
  }

  /** Alt positions consumed by the first k elements. */
  function AltBefore(es: seq<Element>, k: nat): int
    requires k <= |es|
  {
    if k == 0 then 0 else AltBefore(es, k - 1) + AltConsumed(es[k - 1])
  }

  /** What elements [j, k) consume is what the record says they span. */
  lemma {:induction false} BeforeIsSpan(es: seq<Element>, j: nat, k: nat)
    requires j <= k <= |es|
    ensures RefBefore(es, k) - RefBefore(es, j) == RefSpan(es[j..k])
    ensures AltBefore(es, k) - AltBefore(es, j) == AltSpan(es[j..k])
    decreases k - j
  {
    if j < k {
      BeforeIsSpan(es, j, k - 1);
      assert es[j..k][..k - j - 1] == es[j..k - 1];
    }
  }

  /** Counting inside a slice is counting in the whole list from the slice start. */
  lemma {:induction false} BeforeInSlice(es: seq<Element>, i: nat, k: nat, j: nat)
    requires i <= k <= |es| && j <= k - i
    ensures RefBefore(es[i..k], j) == RefBefore(es, i + j) - RefBefore(es, i)
    ensures AltBefore(es[i..k], j) == AltBefore(es, i + j) - AltBefore(es, i)
  {
    if j > 0 {
      BeforeInSlice(es, i, k, j - 1);
      assert es[i..k][j - 1] == es[i + j - 1];
    }
  }

  /**
   * The record extractSubAlignment builds for elements [startElem, endElem):
   * the starts skip what the elements before startElem consume, the stops
   * end where the elements before endElem end.
   */
  function SubAlignment(a: Alignment, startElem: nat, endElem: nat): Alignment
    requires startElem <= endElem <= |a.elements|
  {
    var es := a.elements;
    Alignment(a.refId, a.altId,
      a.refStart + RefBefore(es, startElem), a.refStart - 1 + RefBefore(es, endElem), a.refStrand,
      a.altStart + AltBefore(es, startElem), a.altStart - 1 + AltBefore(es, endElem), a.altStrand,
      es[startElem..endElem])
  }

  /**
   * A sub-alignment keeps ids and strands, holds exactly the chosen
   * elements, and its windows are exactly as long as those elements consume.
   */
  lemma SubAlignmentIsConsistent(a: Alignment, startElem: nat, endElem: nat)
    requires startElem <= endElem <= |a.elements|
    ensures var r := SubAlignment(a, startElem, endElem);
      && r.refId == a.refId && r.altId == a.altId
      && r.refStrand == a.refStrand && r.altStrand == a.altStrand
      && r.elements == a.elements[startElem..endElem]
      && Consistent(r)
  {
    BeforeIsSpan(a.elements, startElem, endElem);
  }

  /** Extracting every element of a consistent record gives the record back. */
  lemma SubAlignmentOfAll(a: Alignment)
    requires Consistent(a)
    ensures SubAlignment(a, 0, |a.elements|) == a
  {
    BeforeIsSpan(a.elements, 0, |a.elements|);
    assert a.elements[0..|a.elements|] == a.elements;
  }

  /** Adjacent element ranges give windows that meet without gap or overlap. */
  lemma SubAlignmentsAdjacent(a: Alignment, x: nat, y: nat, z: nat)
    requires x <= y <= z <= |a.elements|
    ensures SubAlignment(a, x, y).refStop + 1 == SubAlignment(a, y, z).refStart
    ensures SubAlignment(a, x, y).altStop + 1 == SubAlignment(a, y, z).altStart
  {
  }

  /** A sub-alignment of a sub-alignment is a sub-alignment of the original. */
  lemma SubAlignmentOfSubAlignment(a: Alignment, i: nat, k: nat, j: nat, l: nat)
    requires i <= k <= |a.elements| && j <= l <= k - i
    ensures SubAlignment(SubAlignment(a, i, k), j, l) == SubAlignment(a, i + j, i + l)
  {
    var es := a.elements;
    BeforeInSlice(es, i, k, j);
    BeforeInSlice(es, i, k, l);
    assert es[i..k][j..l] == es[i + j..i + l];
  }

  function Min(x: int, y: int): int
  {
    if x < y then x else y
  }

  /**
   * extractSubAlignment: walks elements [0, endElem), advancing the starts
   * over the elements before startElem and the stops over all of them.
   * `None` is the IndexOutOfBoundsException of get (endElem past the list)
   * or of subList (startElem negative or after endElem).
   */
  method ExtractSubAlignment(a: Alignment, startElem: int, endElem: int) returns (r: Option<Alignment>)
    ensures r.Some? <==> 0 <= startElem <= endElem <= |a.elements|
    ensures r.Some? ==> r.value == SubAlignment(a, startElem, endElem)
  {
    var es := a.elements;
    var refStart := a.refStart;
    var refStop := a.refStart - 1;
    var altStart := a.altStart;
    var altStop := a.altStart - 1;
    ghost var skip: nat := if startElem < 0 then 0 else startElem;
    var i: nat := 0;
    while i < endElem
      invariant i <= |es| && (i == 0 || i <= endElem)
      decreases endElem - i
      invariant refStart == a.refStart + RefBefore(es, Min(i, skip))
      invariant altStart == a.altStart + AltBefore(es, Min(i, skip))
      invariant refStop == a.refStart - 1 + RefBefore(es, i)
      invariant altStop == a.altStart - 1 + AltBefore(es, i)
    {
      if i >= |es| {
        return None;
      }
      var element := es[i];
      if i < startElem {
        match element.kind {
          case Insertion =>
            altStart := altStart + element.length;
          case Deletion =>
            refStart := refStart + element.length;
          case Match =>
            refStart := refStart + element.length;
            altStart := altStart + element.length;
        }
      }
      match element.kind {
        case Insertion =>
          altStop := altStop + element.length;
        case Deletion =>
          refStop := refStop + element.length;
        case Match =>
          refStop := refStop + element.length;
          altStop := altStop + element.length;
      }
      i := i + 1;
    }
    if startElem < 0 || startElem > endElem {
      return None;
    }
    r := Some(Alignment(a.refId, a.altId, refStart, refStop, a.refStrand,
                        altStart, altStop, a.altStrand, es[startElem..endElem]));
  }

  // ---------------------------------------------------------------------
  // splitupAlignmentAtLargeIndels

  /** Length from which an indel counts as oversized. */
  const Limit: int := 5000

  predicate IsOversized(e: Element)
  {
    (e.kind == Insertion || e.kind == Deletion) && e.length >= Limit
  }

  /** Element i is the second of two back-to-back oversized indels. */
  predicate IsCut(es: seq<Element>, i: int)
  {
    1 <= i < |es| && IsOversized(es[i - 1]) && IsOversized(es[i])
  }

  /** The counter after the first k elements: oversized indels ending the prefix. */
  function OversizedRun(es: seq<Element>, k: nat): nat
    requires k <= |es|
  {
    if k == 0 || !IsOversized(es[k - 1]) then 0 else OversizedRun(es, k - 1) + 1
  }

  /** The counter exceeds 1 exactly at a cut. */
  lemma CounterSignalsCut(es: seq<Element>, i: nat)
    requires i < |es|
    ensures OversizedRun(es, i + 1) > 1 <==> IsCut(es, i)
  {
  }

  /** The cut positions among the first k elements, in ascending order. */
  function Cuts(es: seq<Element>, k: nat): seq<int>
    requires k <= |es|
  {
    if k == 0 then [] else Cuts(es, k - 1) + (if IsCut(es, k - 1) then [k - 1] else [])
  }

  /** Every listed position below k is a cut. */
  lemma {:induction false} CutsAreCuts(es: seq<Element>, k: nat)
    requires k <= |es|
    ensures forall j :: 0 <= j < |Cuts(es, k)| ==> 0 <= Cuts(es, k)[j] < k && IsCut(es, Cuts(es, k)[j])
  {
    if k > 0 {
      CutsAreCuts(es, k - 1);
      var prev := Cuts(es, k - 1);
      assert forall j :: 0 <= j < |prev| ==> Cuts(es, k)[j] == prev[j];
    }
  }

  /** The listed positions ascend strictly. */
  lemma {:induction false} CutsAscend(es: seq<Element>, k: nat)
    requires k <= |es|
    ensures forall i, j :: 0 <= i < j < |Cuts(es, k)| ==> Cuts(es, k)[i] < Cuts(es, k)[j]
  {
    if k > 0 {
      CutsAscend(es, k - 1);
      CutsAreCuts(es, k - 1);
      var prev := Cuts(es, k - 1);
      assert forall j :: 0 <= j < |prev| ==> Cuts(es, k)[j] == prev[j] && prev[j] < k - 1;
    }
  }

  /** Every cut below k is listed. */
  lemma {:induction false} CutIsListed(es: seq<Element>, k: nat, x: int)
    requires k <= |es| && 0 <= x < k && IsCut(es, x)
    ensures x in Cuts(es, k)
  {
    if x < k - 1 {
      CutIsListed(es, k - 1, x);
    }
  }

  /** Ranges [from, to) of the pieces emitted at the cuts, and where the next piece starts. */
  datatype Cutting = Cutting(ranges: seq<(int, int)>, resume: int)

  /**
   * A cut at c emits the range [resume, c - 1) and resumes at c + 1, so
   * elements c - 1 and c go to no piece; `None` when c - 1 < resume, the
   * subList(from > to) that a third oversized indel in a row provokes.
   */
  function CutRanges(cuts: seq<int>): Option<Cutting>
  {
    if cuts == [] then Some(Cutting([], 0))
    else
      match CutRanges(cuts[..|cuts| - 1])
      case None => None
      case Some(c) =>
        var cut := cuts[|cuts| - 1];
        if cut - 1 < c.resume then None
        else Some(Cutting(c.ranges + [(c.resume, cut - 1)], cut + 1))
  }

  /** What CutRanges yields for cut lists whose positions lie in [0, n), ascending. */
  lemma {:induction false} CutRangesBounds(cuts: seq<int>, n: nat)
    requires forall j :: 0 <= j < |cuts| ==> 0 <= cuts[j] < n
    requires CutRanges(cuts).Some?
    ensures var c := CutRanges(cuts).value;
      && |c.ranges| == |cuts|
      && c.resume == (if cuts == [] then 0 else cuts[|cuts| - 1] + 1)
      && 0 <= c.resume <= n
      && forall j :: 0 <= j < |c.ranges| ==> 0 <= c.ranges[j].0 <= c.ranges[j].1 <= n
  {
    if cuts != [] {
      CutRangesBounds(cuts[..|cuts| - 1], n);
    }
  }

  /** The ranges of a successful scan are element ranges and it resumes inside the list. */
  lemma CutRangesValid(es: seq<Element>)
    ensures CutRanges(Cuts(es, |es|)).Some? ==>
      |CutRanges(Cuts(es, |es|)).value.ranges| == |Cuts(es, |es|)| &&
      ValidRanges(CutRanges(Cuts(es, |es|)).value.ranges, |es|) &&
      0 <= CutRanges(Cuts(es, |es|)).value.resume <= |es|
  {
    var cs := Cuts(es, |es|);
    CutsAreCuts(es, |es|);
    if CutRanges(cs).Some? {
      CutRangesBounds(cs, |es|);
    }
  }

  predicate ValidRanges(ranges: seq<(int, int)>, n: nat)
  {
    forall j :: 0 <= j < |ranges| ==> 0 <= ranges[j].0 <= ranges[j].1 <= n
  }

  /** The sub-alignment of each range. */
  function Pieces(a: Alignment, ranges: seq<(int, int)>): (ps: seq<Alignment>)
    requires ValidRanges(ranges, |a.elements|)
    ensures |ps| == |ranges|
  {
    seq(|ranges|, j requires 0 <= j < |ranges| => SubAlignment(a, ranges[j].0, ranges[j].1))
  }

  /**
   * What splitupAlignmentAtLargeIndels returns: one sub-alignment per cut,
   * then the trailing sub-alignment from the last resume point when it is
   * non-empty, or else the original record itself. `None` is the exception
   * raised when three oversized indels follow each other.
   */
  function SplitAtLargeIndels(a: Alignment): (r: Option<seq<Alignment>>)
    ensures r.Some? ==> |r.value| == |Cuts(a.elements, |a.elements|)| + 1
  {
    var n := |a.elements|;
    var cuts := Cuts(a.elements, n);
    match CutRanges(cuts)
    case None => None
    case Some(c) =>
      CutRangesValid(a.elements);
      Some(Pieces(a, c.ranges) + [if c.resume < n then SubAlignment(a, c.resume, n) else a])
  }

  /**
   * The scan state after the first k elements, element by element: None
   * once a cut has come too soon after the previous one.
   */
  function Scan(es: seq<Element>, k: nat): Option<Cutting>
    requires k <= |es|
  {
    if k == 0 then Some(Cutting([], 0))
    else
      match Scan(es, k - 1)
      case None => None
      case Some(c) =>
        if !IsCut(es, k - 1) then Some(c)
        else if k - 2 < c.resume then None
        else Some(Cutting(c.ranges + [(c.resume, k - 2)], k))
  }

  /** One more cut: CutRanges extends the previous result. */
  lemma CutRangesSnoc(cuts: seq<int>, x: int)
    ensures CutRanges(cuts + [x]) ==
      match CutRanges(cuts)
      case None => None
      case Some(c) => if x - 1 < c.resume then None else Some(Cutting(c.ranges + [(c.resume, x - 1)], x + 1))
  {
    assert (cuts + [x])[..|cuts|] == cuts;
  }

  /** The element-by-element scan agrees with CutRanges over the cut list. */
  lemma {:induction false} ScanIsCutRanges(es: seq<Element>, k: nat)
    requires k <= |es|
    ensures Scan(es, k) == CutRanges(Cuts(es, k))
  {
    if k > 0 {
      ScanIsCutRanges(es, k - 1);
      if IsCut(es, k - 1) {
        assert Cuts(es, k) == Cuts(es, k - 1) + [k - 1];
        CutRangesSnoc(Cuts(es, k - 1), k - 1);
      } else {
        assert Cuts(es, k) == Cuts(es, k - 1);
      }
    }
  }

  /** Once the scan fails it stays failed. */
  lemma {:induction false} ScanFailsLater(es: seq<Element>, k: nat, n: nat)
    requires k <= n <= |es|
    requires Scan(es, k).None?
    ensures Scan(es, n).None?
    decreases n - k
  {
    if k < n {
      ScanFailsLater(es, k, n - 1);
    }
  }

  lemma PiecesSnoc(a: Alignment, ranges: seq<(int, int)>, from: int, to: int)
    requires ValidRanges(ranges, |a.elements|) && 0 <= from <= to <= |a.elements|
    ensures ValidRanges(ranges + [(from, to)], |a.elements|)
    ensures Pieces(a, ranges + [(from, to)]) == Pieces(a, ranges) + [SubAlignment(a, from, to)]
  {
    assert (ranges + [(from, to)])[..|ranges|] == ranges;
  }

  /** The result once the scan has seen every element. */
  lemma SplitAtEnd(a: Alignment, ranges: seq<(int, int)>, start: int)
    requires Scan(a.elements, |a.elements|) == Some(Cutting(ranges, start))
    requires ValidRanges(ranges, |a.elements|) && 0 <= start <= |a.elements|
    ensures SplitAtLargeIndels(a) == Some(Pieces(a, ranges) +
      [if start < |a.elements| then SubAlignment(a, start, |a.elements|) else a])
  {
    ScanIsCutRanges(a.elements, |a.elements|);
    CutRangesValid(a.elements);
  }

  /** The failed scan is the failed split. */
  lemma SplitFails(a: Alignment, k: nat)
    requires k <= |a.elements| && Scan(a.elements, k).None?
    ensures SplitAtLargeIndels(a).None?
  {
    ScanFailsLater(a.elements, k, |a.elements|);
    ScanIsCutRanges(a.elements, |a.elements|);
  }

  /**
   * splitupAlignmentAtLargeIndels: one pass over the elements with the
   * counter `obacht` (reset by anything but an oversized indel); when it
   * exceeds 1 the elements [start, stop - 1) are emitted and the next piece
   * starts at stop + 1.
   */
  method SplitupAlignmentAtLargeIndels(a: Alignment) returns (r: Option<seq<Alignment>>)
    ensures r == SplitAtLargeIndels(a)
    ensures r.Some? ==> |r.value| >= 1
  {
    var es := a.elements;
    var n := |es|;
    var alignments: seq<Alignment> := [];
    var start: int := 0;
    var stop: nat := start;
    var obacht: nat := 0;
    ghost var ranges: seq<(int, int)> := [];
    while stop < n
      invariant stop <= n
      invariant obacht == OversizedRun(es, stop)
      invariant Scan(es, stop) == Some(Cutting(ranges, start))
      invariant ValidRanges(ranges, n)
      invariant 0 <= start <= stop
      invariant alignments == Pieces(a, ranges)
    {
      var element := es[stop];
      if element.kind == Insertion && element.length >= Limit {
        obacht := obacht + 1;
      } else if element.kind == Deletion && element.length >= Limit {
        obacht := obacht + 1;
      } else {
        obacht := 0;
      }
      CounterSignalsCut(es, stop);
      if obacht > 1 {
        var sub := ExtractSubAlignment(a, start, stop - 1);
        if sub.None? {
          SplitFails(a, stop + 1);
          return None;
        }
        PiecesSnoc(a, ranges, start, stop - 1);
        alignments := alignments + [sub.value];
        ranges := ranges + [(start, stop - 1)];
        start := stop + 1;
      }
      stop := stop + 1;
    }
    SplitAtEnd(a, ranges, start);
    if start < stop {
      var sub := ExtractSubAlignment(a, start, stop);
      alignments := alignments + [sub.value];
    } else {
      alignments := alignments + [a];
    }
    r := Some(alignments);
  }

  // ---------------------------------------------------------------------
  // What the split yields, in closed form

  /** Consecutive cuts are at least two apart. */
  predicate Spaced(cs: seq<int>)
  {
    forall i, j :: 0 <= i < |cs| && 0 <= j < |cs| && j == i + 1 ==> cs[i] + 2 <= cs[j]
  }

  /** Where the piece before cut j starts: just after the previous cut, or at the front. */
  function StartAfter(cs: seq<int>, j: int): int
    requires 0 <= j <= |cs|
  {
    if j == 0 then 0 else cs[j - 1] + 1
  }

  /** The elements of the piece before cut j: from StartAfter(cs, j) to just before cut j. */
  function PieceRange(cs: seq<int>, j: int): (int, int)
    requires 0 <= j < |cs|
  {
    (StartAfter(cs, j), cs[j] - 1)
  }

  /** Range j is PieceRange(cs, j); the scan resumes after the last cut. */
  predicate RangesOfCuts(cs: seq<int>, c: Cutting)
  {
    && |c.ranges| == |cs|
    && c.resume == StartAfter(cs, |cs|)
    && forall j :: 0 <= j < |cs| ==> c.ranges[j] == PieceRange(cs, j)
  }

  /** CutRanges succeeds exactly on spaced cut lists of positive positions. */
  lemma {:induction false} CutRangesSpaced(cs: seq<int>)
    requires forall j :: 0 <= j < |cs| ==> cs[j] >= 1
    ensures CutRanges(cs).Some? <==> Spaced(cs)
    ensures CutRanges(cs).Some? ==> CutRanges(cs).value.resume == StartAfter(cs, |cs|)
  {
    if cs != [] {
      var init := cs[..|cs| - 1];
      var x := cs[|cs| - 1];
      CutRangesSpaced(init);
      assert Spaced(cs) <==> Spaced(init) && (init != [] ==> init[|init| - 1] + 2 <= x) by {
        assert forall j :: 0 <= j < |init| ==> cs[j] == init[j];
      }
    }
  }

  /** A successful CutRanges has the closed form RangesOfCuts. */
  lemma {:induction false} CutRangesForm(cs: seq<int>)
    requires CutRanges(cs).Some?
    ensures RangesOfCuts(cs, CutRanges(cs).value)
  {
    if cs != [] {
      var init := cs[..|cs| - 1];
      var x := cs[|cs| - 1];
      CutRangesForm(init);
      var c := CutRanges(init).value;
      var d := CutRanges(cs).value;
      assert d.ranges == c.ranges + [(c.resume, x - 1)] && d.resume == x + 1;
      forall j | 0 <= j < |cs|
        ensures d.ranges[j] == PieceRange(cs, j)
      {
        if j < |init| {
          assert cs[j] == init[j] && d.ranges[j] == c.ranges[j];
          assert StartAfter(cs, j) == StartAfter(init, j);
        } else {
          assert StartAfter(cs, j) == StartAfter(init, |init|);
        }
      }
    }
  }

  /** Three oversized indels in a row, ending at element i. */
  predicate TripleAt(es: seq<Element>, i: int)
  {
    2 <= i < |es| && IsOversized(es[i - 2]) && IsOversized(es[i - 1]) && IsOversized(es[i])
  }

  /** In an ascending list of integers, entries j - i positions apart differ by at least j - i. */
  lemma {:induction false} Spread(cs: seq<int>, i: nat, j: nat)
    requires forall i, j :: 0 <= i < j < |cs| ==> cs[i] < cs[j]
    requires i <= j < |cs|
    ensures cs[j] - cs[i] >= j - i
    decreases j - i
  {
    if i < j {
      Spread(cs, i, j - 1);
    }
  }

  /** Ascending cut lists: a pair at distance one sits at adjacent list positions. */
  lemma AdjacentCuts(cs: seq<int>, p: int, q: int)
    requires forall i, j :: 0 <= i < j < |cs| ==> cs[i] < cs[j]
    requires 0 <= p < |cs| && 0 <= q < |cs| && cs[q] == cs[p] + 1
    ensures q == p + 1
  {
    forall i: nat, j: nat | i <= j < |cs|
      ensures cs[j] - cs[i] >= j - i
    {
      Spread(cs, i, j);
    }
  }

  /** Three oversized indels in a row give two cuts at distance one. */
  lemma TripleBreaksSpacing(es: seq<Element>, i: int)
    requires TripleAt(es, i)
    ensures !Spaced(Cuts(es, |es|))
  {
    var cs := Cuts(es, |es|);
    CutsAscend(es, |es|);
    CutIsListed(es, |es|, i - 1);
    CutIsListed(es, |es|, i);
    var p :| 0 <= p < |cs| && cs[p] == i - 1;
    var q :| 0 <= q < |cs| && cs[q] == i;
    AdjacentCuts(cs, p, q);
  }

  /** Ascending cut positions with no three oversized indels in a row are spaced. */
  lemma SpacedCuts(es: seq<Element>, cs: seq<int>)
    requires forall j :: 0 <= j < |cs| ==> IsCut(es, cs[j])
    requires forall i, j :: 0 <= i < j < |cs| ==> cs[i] < cs[j]
    requires forall i :: !TripleAt(es, i)
    ensures Spaced(cs)
  {
    forall i, j | 0 <= i < |cs| && 0 <= j < |cs| && j == i + 1
      ensures cs[i] + 2 <= cs[j]
    {
      var before, here := cs[i], cs[j];
      assert IsCut(es, before) && IsCut(es, here) && before < here;
      assert before + 1 == here ==> TripleAt(es, here);
    }
  }

  /** Without three oversized indels in a row the cuts are at least two apart. */
  lemma SpacedWithoutTriple(es: seq<Element>)
    requires forall i :: !TripleAt(es, i)
    ensures Spaced(Cuts(es, |es|))
  {
    CutsAreCuts(es, |es|);
    CutsAscend(es, |es|);
    SpacedCuts(es, Cuts(es, |es|));
  }

  /**
   * The split fails exactly when some three oversized indels follow each
   * other.
   */
  lemma SplitFailsIffTriple(a: Alignment)
    ensures SplitAtLargeIndels(a).None? <==> exists i :: TripleAt(a.elements, i)
  {
    var es := a.elements;
    var cs := Cuts(es, |es|);
    CutsAreCuts(es, |es|);
    CutRangesSpaced(cs);
    if exists i :: TripleAt(es, i) {
      var i :| TripleAt(es, i);
      TripleBreaksSpacing(es, i);
    } else {
      SpacedWithoutTriple(es);
    }
  }

  /** ps holds, for each cut, the piece before it, then the trailing piece. */
  predicate PiecesAtCuts(a: Alignment, cs: seq<int>, ps: seq<Alignment>)
  {
    var n := |a.elements|;
    && |ps| == |cs| + 1
    && (forall j :: 0 <= j < |cs| ==>
          0 <= PieceRange(cs, j).0 <= PieceRange(cs, j).1 <= n &&
          ps[j] == SubAlignment(a, PieceRange(cs, j).0, PieceRange(cs, j).1))
    && 0 <= StartAfter(cs, |cs|) <= n
    && ps[|cs|] == (if StartAfter(cs, |cs|) < n then SubAlignment(a, StartAfter(cs, |cs|), n) else a)
  }

  /**
   * Piece j of a successful split covers the elements from just after the
   * previous cut (or the front) to just before the element preceding cut
   * j; the final piece runs from after the last cut to the end, or is the
   * input record when the last cut is the final element.
   */
  lemma SplitPieces(a: Alignment)
    requires SplitAtLargeIndels(a).Some?
    ensures PiecesAtCuts(a, Cuts(a.elements, |a.elements|), SplitAtLargeIndels(a).value)
  {
    var es := a.elements;
    var cs := Cuts(es, |es|);
    CutRangesValid(es);
    CutRangesForm(cs);
    PiecesOfCutting(a, cs, CutRanges(cs).value);
  }

  /** The piece of cut j in closed form. */
  lemma PieceOfCut(a: Alignment, cs: seq<int>, c: Cutting, j: int)
    requires RangesOfCuts(cs, c) && ValidRanges(c.ranges, |a.elements|)
    requires 0 <= j < |cs|
    ensures 0 <= PieceRange(cs, j).0 <= PieceRange(cs, j).1 <= |a.elements|
    ensures Pieces(a, c.ranges)[j] == SubAlignment(a, PieceRange(cs, j).0, PieceRange(cs, j).1)
  {
    assert c.ranges[j] == PieceRange(cs, j);
  }

  /** The pieces of a cutting in closed form. */
  lemma PiecesOfCutting(a: Alignment, cs: seq<int>, c: Cutting)
    requires RangesOfCuts(cs, c) && ValidRanges(c.ranges, |a.elements|)
    requires 0 <= c.resume <= |a.elements|
    ensures PiecesAtCuts(a, cs, Pieces(a, c.ranges) +
      [if c.resume < |a.elements| then SubAlignment(a, c.resume, |a.elements|) else a])
  {
    var n := |a.elements|;
    var front := Pieces(a, c.ranges);
    var ps := front + [if c.resume < n then SubAlignment(a, c.resume, n) else a];
    forall j | 0 <= j < |cs|
      ensures 0 <= PieceRange(cs, j).0 <= PieceRange(cs, j).1 <= n
      ensures ps[j] == SubAlignment(a, PieceRange(cs, j).0, PieceRange(cs, j).1)
    {
      PieceOfCut(a, cs, c, j);
      assert ps[j] == front[j];
    }
  }

  lemma {:induction false} PiecesIndex(a: Alignment, ranges: seq<(int, int)>)
    requires ValidRanges(ranges, |a.elements|)
    ensures forall j :: 0 <= j < |ranges| ==> Pieces(a, ranges)[j] == SubAlignment(a, ranges[j].0, ranges[j].1)
  {
    if ranges != [] {
      var init := ranges[..|ranges| - 1];
      PiecesIndex(a, init);
      assert forall j :: 0 <= j < |init| ==> ranges[j] == init[j];
    }
  }

  lemma {:induction false} NoCutsListed(es: seq<Element>, k: nat)
    requires k <= |es|
    requires forall i :: !IsCut(es, i)
    ensures Cuts(es, k) == []
  {
    if k > 0 {
      NoCutsListed(es, k - 1);
    }
  }

  /**
   * Without two oversized indels in a row the split yields a single piece:
   * a consistent record with elements comes back as itself.
   */
  lemma SplitWithoutCuts(a: Alignment)
    requires forall i :: !IsCut(a.elements, i)
    ensures SplitAtLargeIndels(a) ==
      Some([if |a.elements| > 0 then SubAlignment(a, 0, |a.elements|) else a])
    ensures Consistent(a) ==> SplitAtLargeIndels(a) == Some([a])
  {
    var es := a.elements;
    var cs := Cuts(es, |es|);
    NoCutsListed(es, |es|);
    assert CutRanges(cs) == Some(Cutting([], 0));
    CutRangesValid(es);
    assert Pieces(a, []) == [];
    var last := if |es| > 0 then SubAlignment(a, 0, |es|) else a;
    assert SplitAtLargeIndels(a) == Some([] + [last]);
    assert [] + [last] == [last];
    if Consistent(a) && |es| > 0 {
      SubAlignmentOfAll(a);
    }
  }

  // ---------------------------------------------------------------------
  // Worked cases

  /** The cut list of a literal element list, element by element. */
  lemma CutsOfFour(es: seq<Element>)
    requires |es| == 4 && !IsCut(es, 1) && IsCut(es, 2) && !IsCut(es, 3)
    ensures Cuts(es, 4) == [2]
  {
    assert Cuts(es, 1) == [];
    assert Cuts(es, 2) == [];
    assert Cuts(es, 3) == [2];
  }

  /**
   * An insertion and a deletion of 6000 each between two matches: both
   * indels are dropped and the two matches come out as separate pieces with
   * their own windows.
   */
  lemma SplitDropsIndelPair()
    ensures var a := Alignment("chr1", "alt1", 1000, 7149, true, 1, 6150, true,
      [Element(Match, 100), Element(Insertion, 6000), Element(Deletion, 6000), Element(Match, 50)]);
      SplitAtLargeIndels(a) == Some([
        Alignment("chr1", "alt1", 1000, 1099, true, 1, 100, true, [Element(Match, 100)]),
        Alignment("chr1", "alt1", 7100, 7149, true, 6101, 6150, true, [Element(Match, 50)])])
  {
    var a := Alignment("chr1", "alt1", 1000, 7149, true, 1, 6150, true,
      [Element(Match, 100), Element(Insertion, 6000), Element(Deletion, 6000), Element(Match, 50)]);
    var es := a.elements;
    assert !IsOversized(es[0]) && !IsOversized(es[3]);
    assert forall i :: !TripleAt(es, i);
    SplitFailsIffTriple(a);
    CutsOfFour(es);
    SplitPieces(a);
    var ps := SplitAtLargeIndels(a).value;
    assert PieceRange([2], 0) == (0, 1);
    assert ps[0] == SubAlignment(a, 0, 1);
    assert ps[1] == SubAlignment(a, 3, 4);
    assert RefBefore(es, 1) == 100 && AltBefore(es, 1) == 100;
    assert RefBefore(es, 3) == 6100 && AltBefore(es, 3) == 6100;
    assert RefBefore(es, 4) == 6150 && AltBefore(es, 4) == 6150;
    assert es[0..1] == [Element(Match, 100)] && es[3..4] == [Element(Match, 50)];
    assert |ps| == 2;
    assert ps[0] == Alignment("chr1", "alt1", 1000, 1099, true, 1, 100, true, [Element(Match, 100)]);
    assert ps[1] == Alignment("chr1", "alt1", 7100, 7149, true, 6101, 6150, true, [Element(Match, 50)]);
    assert ps == [ps[0], ps[1]];
  }

  /** The ranges of a single cut at c: elements [0, c - 1), resuming after c. */
  lemma CutRangesOfOne(c: int)
    requires c >= 1
    ensures CutRanges([c]) == Some(Cutting([(0, c - 1)], c + 1))
  {
    var cs: seq<int> := [c];
    assert cs[..|cs| - 1] == [];
    assert CutRanges(cs[..|cs| - 1]) == Some(Cutting([], 0));
    var none: seq<(int, int)> := [];
    assert none + [(0, c - 1)] == [(0, c - 1)];
    assert CutRanges(cs) == Some(Cutting(none + [(0, c - 1)], c + 1));
  }

  /**
   * When the only cut is at the last element, the split gives the elements
   * before the pair and then the input record whole.
   */
  lemma SplitAtLastCut(a: Alignment)
    requires |a.elements| >= 2 && Cuts(a.elements, |a.elements|) == [|a.elements| - 1]
    ensures SplitAtLargeIndels(a) == Some([SubAlignment(a, 0, |a.elements| - 2), a])
  {
    var n := |a.elements|;
    CutRangesOfOne(n - 1);
    CutRangesValid(a.elements);
    var first := SubAlignment(a, 0, n - 2);
    assert Pieces(a, [(0, n - 2)]) == [first];
    assert [first] + [a] == [first, a];
  }

  /** A pair of oversized indels at the very end: the input record itself comes last. */
  lemma SplitAtTrailingPair()
    ensures var a := Alignment("chr1", "alt1", 1, 6100, false, 1, 6100, false,
      [Element(Match, 100), Element(Insertion, 6000), Element(Deletion, 6000)]);
      SplitAtLargeIndels(a) == Some([
        Alignment("chr1", "alt1", 1, 100, false, 1, 100, false, [Element(Match, 100)]), a])
  {
    var a := Alignment("chr1", "alt1", 1, 6100, false, 1, 6100, false,
      [Element(Match, 100), Element(Insertion, 6000), Element(Deletion, 6000)]);
    var es := a.elements;
    assert Cuts(es, 1) == [] && Cuts(es, 2) == [] && Cuts(es, 3) == [2];
    SplitAtLastCut(a);
    assert RefBefore(es, 1) == 100 && AltBefore(es, 1) == 100;
    assert es[0..1] == [Element(Match, 100)];
  }

  /** Three oversized indels in a row make the split fail. */
  lemma SplitFailsOnTriple()
    ensures SplitAtLargeIndels(Alignment("chr1", "alt1", 1, 6000, true, 1, 12000, true,
      [Element(Insertion, 6000), Element(Deletion, 6000), Element(Insertion, 6000)])).None?
  {
    var es := [Element(Insertion, 6000), Element(Deletion, 6000), Element(Insertion, 6000)];
    assert TripleAt(es, 2);
    SplitFailsIffTriple(Alignment("chr1", "alt1", 1, 6000, true, 1, 12000, true, es));
  }
}
