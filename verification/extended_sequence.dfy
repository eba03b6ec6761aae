/**
 * The extended alt loci of the two CreateFastaCommand variants: each alt
 * locus is padded with the reference bases of its region on both sides, so
 * that the alt locus and the region reference can be aligned end to end.
 * The asdpex variant reverse complements alt loci placed on the minus
 * strand; the hg38 variant takes the alt locus bases as they are.
 */
module ExtendedSequence {
  import opened Wrappers
  import opened Bases
  import opened RefStore

  /** The fields of an alt scaffold placement row the commands read. */
  datatype Placement = Placement(
    altScafAcc: string,
    parentName: string,
    parentStart: int,
    parentStop: int,
    altScafStart: int,
    altScafStop: int,
    strand: bool,
    region: string)

  /** A region definition: the reference window the alt loci of the region lie in. */
  datatype RegionInfo = RegionInfo(regionName: string, start: int, stop: int)

  /** A window of positions, 1-based and inclusive. */
  datatype Window = Window(start: int, stop: int)

  /** Region start up to the base before the placement on the parent. */
  function FivePrimeWindow(reg: RegionInfo, sc: Placement): Window
  {
    Window(reg.start, sc.parentStart - 1)
  }

  /** The base after the placement on the parent up to the region stop. */
  function ThreePrimeWindow(reg: RegionInfo, sc: Placement): Window
  {
    Window(sc.parentStop + 1, reg.stop)
  }

  /** The number of positions of a window. */
  function Width(w: Window): int
  {
    w.stop - w.start + 1
  }

  /** The reference sequence the placement is on. */
  function ParentSequence(sc: Placement): string
  {
    "chr" + sc.parentName
  }

  /** A flank is fetched only when its window start lies strictly before its stop. */
  predicate Taken(w: Window)
  {
    w.start < w.stop
  }

  /** The bases a flank contributes: those of its window when taken, none otherwise. */
  function Flank(store: Store, chrom: string, w: Window, take: bool): Option<seq<byte>>
  {
    if take then Fetch(store, chrom, w.start, w.stop) else Some([])
  }

  /** Both flanks and the alt locus, in order, or None when one of them could not be fetched. */
  function Combine(five: Option<seq<byte>>, core: Option<seq<byte>>, three: Option<seq<byte>>): Option<seq<byte>>
  {
    if five.Some? && core.Some? && three.Some? then Some(five.value + core.value + three.value) else None
  }

  /** The alt locus bases, reverse complemented on the minus strand when `complementMinus`. */
  function Core(store: Store, sc: Placement, identifier: string, complementMinus: bool): Option<seq<byte>>
  {
    match Fetch(store, identifier, sc.altScafStart, sc.altScafStop)
    case None => None
    case Some(bases) => Some(Oriented(bases, sc.strand || !complementMinus))
  }

  /**
   * The extended alt locus as the code builds it: the 5' flank, the alt
   * locus, the 3' flank, a flank only when its window passes `Taken`. None
   * stands for the exception the store throws for a window it does not hold.
   */
  function Extended(store: Store, sc: Placement, reg: RegionInfo, identifier: string,
                    complementMinus: bool): (r: Option<seq<byte>>)
    ensures r.Some? <==>
      && (Taken(FivePrimeWindow(reg, sc)) ==>
            Fetchable(store, ParentSequence(sc), reg.start, sc.parentStart - 1))
      && Fetchable(store, identifier, sc.altScafStart, sc.altScafStop)
      && (Taken(ThreePrimeWindow(reg, sc)) ==>
            Fetchable(store, ParentSequence(sc), sc.parentStop + 1, reg.stop))
  {
    var five, three := FivePrimeWindow(reg, sc), ThreePrimeWindow(reg, sc);
    Combine(Flank(store, ParentSequence(sc), five, Taken(five)),
            Core(store, sc, identifier, complementMinus),
            Flank(store, ParentSequence(sc), three, Taken(three)))
  }

  /** The length a flank window adds when it is taken. */
  function TakenWidth(w: Window): int
  {
    if Taken(w) then Width(w) else 0
  }

  /**
   * The extended alt locus is as long as the taken flank windows and the
   * alt locus window together.
   */
  lemma ExtendedLength(store: Store, sc: Placement, reg: RegionInfo, identifier: string, complementMinus: bool)
    requires Extended(store, sc, reg, identifier, complementMinus).Some?
    ensures |Extended(store, sc, reg, identifier, complementMinus).value|
         == TakenWidth(FivePrimeWindow(reg, sc)) + (sc.altScafStop - sc.altScafStart + 1)
            + TakenWidth(ThreePrimeWindow(reg, sc))
  {
  }

  /** A concatenation of three parts gives back each part. */
  lemma ConcatParts(f: seq<byte>, c: seq<byte>, t: seq<byte>)
    ensures var s := f + c + t;
      s[..|f|] == f && s[|f|..|f| + |c|] == c && s[|f| + |c|..] == t
  {
  }

  /**
   * The two variants build the same sequence on the plus strand; on the
   * minus strand they agree on both flanks and their alt loci are reverse
   * complements of each other.
   */
  lemma VariantsDifferOnlyInCore(store: Store, sc: Placement, reg: RegionInfo, identifier: string)
    ensures Extended(store, sc, reg, identifier, true).Some? <==> Extended(store, sc, reg, identifier, false).Some?
    ensures sc.strand ==> Extended(store, sc, reg, identifier, true) == Extended(store, sc, reg, identifier, false)
    ensures Extended(store, sc, reg, identifier, false).Some? ==>
      var asdpex, hg38 := Extended(store, sc, reg, identifier, true).value, Extended(store, sc, reg, identifier, false).value;
      var p := TakenWidth(FivePrimeWindow(reg, sc));
      var q := p + (sc.altScafStop - sc.altScafStart + 1);
      && 0 <= p <= q <= |asdpex| == |hg38|
      && asdpex[..p] == hg38[..p]
      && asdpex[q..] == hg38[q..]
      && asdpex[p..q] == Oriented(hg38[p..q], sc.strand)
  {
    var five, three := FivePrimeWindow(reg, sc), ThreePrimeWindow(reg, sc);
    var f := Flank(store, ParentSequence(sc), five, Taken(five));
    var t := Flank(store, ParentSequence(sc), three, Taken(three));
    var fetched := Fetch(store, identifier, sc.altScafStart, sc.altScafStop);
    if f.Some? && fetched.Some? && t.Some? {
      var core := fetched.value;
      assert Extended(store, sc, reg, identifier, true).value == f.value + Oriented(core, sc.strand) + t.value;
      assert Extended(store, sc, reg, identifier, false).value == f.value + core + t.value;
      assert |f.value| == TakenWidth(five);
      ConcatParts(f.value, Oriented(core, sc.strand), t.value);
      ConcatParts(f.value, core, t.value);
    }
  }

  // ---------------------------------------------------------------------
  // The flank windows against the region

  /** The placement lies inside its region. */
  predicate Nested(reg: RegionInfo, sc: Placement)
  {
    reg.start <= sc.parentStart <= sc.parentStop + 1 <= reg.stop + 1
  }

  /** The region's reference bases with the placement window replaced by `core`. */
  function Substituted(regionBases: seq<byte>, reg: RegionInfo, sc: Placement, core: seq<byte>): (r: seq<byte>)
    requires Nested(reg, sc) && |regionBases| == Width(Window(reg.start, reg.stop))
    ensures |r| == |regionBases| - (sc.parentStop - sc.parentStart + 1) + |core|
  {
    regionBases[..sc.parentStart - reg.start] + core + regionBases[sc.parentStop + 1 - reg.start..]
  }

  /** The window holds exactly one position. */
  predicate OneBase(w: Window)
  {
    w.start == w.stop
  }

  /** The bases of the region, fetched whole (the region reference file's content). */
  function RegionBases(store: Store, sc: Placement, reg: RegionInfo): Option<seq<byte>>
  {
    Fetch(store, ParentSequence(sc), reg.start, reg.stop)
  }

  /**
   * A flank window inside the region, fetched under the guard `take`, gives
   * the region's bases of that window when it is taken or empty; a one-base
   * window that is not taken gives one base fewer.
   */
  lemma FlankOfRegion(store: Store, sc: Placement, reg: RegionInfo, w: Window, take: bool)
    requires RegionBases(store, sc, reg).Some?
    requires reg.start <= w.start <= w.stop + 1 <= reg.stop + 1
    requires take ==> Width(w) > 0
    requires !take ==> Width(w) <= 1
    ensures var f := Flank(store, ParentSequence(sc), w, take);
      var part := RegionBases(store, sc, reg).value[w.start - reg.start..w.stop + 1 - reg.start];
      && f.Some?
      && |f.value| <= |part|
      && (|f.value| == |part| ==> f.value == part)
      && (|f.value| == |part| <==> take || Width(w) == 0)
  {
    var region := RegionBases(store, sc, reg).value;
    var f := Flank(store, ParentSequence(sc), w, take);
    if take {
      var s := store[ParentSequence(sc)];
      assert f.value == s[w.start - 1..w.stop];
      assert region == s[reg.start - 1..reg.stop];
      assert region[w.start - reg.start..w.stop + 1 - reg.start] == s[w.start - 1..w.stop];
    }
  }

  /**
   * Two three-part concatenations with the same middle, where each outer
   * part on the left is a shortened stand-in for the one on the right that
   * is equal to it at full length: equal exactly when no part is shortened.
   */
  lemma ConcatEqIff(f: seq<byte>, x: seq<byte>, c: seq<byte>, t: seq<byte>, y: seq<byte>)
    requires |f| <= |x| && |t| <= |y|
    requires |f| == |x| ==> f == x
    requires |t| == |y| ==> t == y
    ensures f + c + t == x + c + y <==> |f| == |x| && |t| == |y|
  {
    if |f| < |x| || |t| < |y| {
      assert |f + c + t| < |x + c + y|;
    }
  }

  /**
   * As written: for a placement inside a fetchable region, the extended alt
   * locus is the region with the placement replaced by the alt locus
   * exactly when neither flank window is a single base. A one-base flank
   * fails the strict `Taken` test and its base is lost.
   */
  lemma ExtendedIsSubstitutionIff(store: Store, sc: Placement, reg: RegionInfo, identifier: string,
                                  complementMinus: bool)
    requires Nested(reg, sc)
    requires RegionBases(store, sc, reg).Some?
    requires Core(store, sc, identifier, complementMinus).Some?
    ensures Extended(store, sc, reg, identifier, complementMinus).Some?
    ensures Extended(store, sc, reg, identifier, complementMinus).value
         == Substituted(RegionBases(store, sc, reg).value, reg, sc, Core(store, sc, identifier, complementMinus).value)
        <==> !OneBase(FivePrimeWindow(reg, sc)) && !OneBase(ThreePrimeWindow(reg, sc))
  {
    var five, three := FivePrimeWindow(reg, sc), ThreePrimeWindow(reg, sc);
    var region := RegionBases(store, sc, reg).value;
    var core := Core(store, sc, identifier, complementMinus).value;
    FlankOfRegion(store, sc, reg, five, Taken(five));
    FlankOfRegion(store, sc, reg, three, Taken(three));
    var f := Flank(store, ParentSequence(sc), five, Taken(five)).value;
    var t := Flank(store, ParentSequence(sc), three, Taken(three)).value;
    var x := region[five.start - reg.start..five.stop + 1 - reg.start];
    var y := region[three.start - reg.start..three.stop + 1 - reg.start];
    assert Extended(store, sc, reg, identifier, complementMinus).value == f + core + t;
    assert Substituted(region, reg, sc, core) == x + core + y;
    ConcatEqIff(f, x, core, t, y);
  }

  /**
   * One alt locus whose flank windows are one base each: region 1..5 of
   * chr1 holds ACGTA, the placement covers 2..4, the alt locus is GGG. The
   * code builds GGG; the region with the placement replaced is AGGGA.
   */
  lemma OneBaseFlanksExample()
    ensures var store: Store := map["chr1" := [A, C, G, T, A], "alt" := [G, G, G]];
      var sc := Placement("acc", "1", 2, 4, 1, 3, true, "REG");
      var reg := RegionInfo("REG", 1, 5);
      && Extended(store, sc, reg, "alt", true) == Some([G, G, G])
      && RegionBases(store, sc, reg) == Some([A, C, G, T, A])
      && Substituted([A, C, G, T, A], reg, sc, [G, G, G]) == [A, G, G, G, A]
  {
    var store: Store := map["chr1" := [A, C, G, T, A], "alt" := [G, G, G]];
    var sc := Placement("acc", "1", 2, 4, 1, 3, true, "REG");
    var reg := RegionInfo("REG", 1, 5);
    assert ParentSequence(sc) == "chr1";
    assert !Taken(FivePrimeWindow(reg, sc)) && !Taken(ThreePrimeWindow(reg, sc));
    assert store["alt"][0..3] == [G, G, G];
    assert Core(store, sc, "alt", true) == Some([G, G, G]);
    assert [] + [G, G, G] + [] == [G, G, G];
    assert store["chr1"][0..5] == [A, C, G, T, A];
    assert [A, C, G, T, A][..1] + [G, G, G] + [A, C, G, T, A][4..] == [A, G, G, G, A];
  }

  /** The window test the comments describe: a window holds a base when start <= stop. */
  predicate NonEmpty(w: Window)
  {
    w.start <= w.stop
  }

  /** The extended alt locus with every non-empty flank window fetched. */
  function ExtendedInclusive(store: Store, sc: Placement, reg: RegionInfo, identifier: string,
                             complementMinus: bool): Option<seq<byte>>
  {
    var five, three := FivePrimeWindow(reg, sc), ThreePrimeWindow(reg, sc);
    Combine(Flank(store, ParentSequence(sc), five, NonEmpty(five)),
            Core(store, sc, identifier, complementMinus),
            Flank(store, ParentSequence(sc), three, NonEmpty(three)))
  }

  /**
   * With inclusive windows the extended alt locus is always the region
   * with the placement replaced by the alt locus, and its length is the
   * region's length adjusted by the difference of the two windows.
   */
  lemma InclusiveIsSubstitution(store: Store, sc: Placement, reg: RegionInfo, identifier: string,
                                complementMinus: bool)
    requires Nested(reg, sc)
    requires RegionBases(store, sc, reg).Some?
    requires Core(store, sc, identifier, complementMinus).Some?
    ensures ExtendedInclusive(store, sc, reg, identifier, complementMinus)
         == Some(Substituted(RegionBases(store, sc, reg).value, reg, sc, Core(store, sc, identifier, complementMinus).value))
  {
    var five, three := FivePrimeWindow(reg, sc), ThreePrimeWindow(reg, sc);
    var region := RegionBases(store, sc, reg).value;
    FlankOfRegion(store, sc, reg, five, NonEmpty(five));
    FlankOfRegion(store, sc, reg, three, NonEmpty(three));
    assert region[..sc.parentStart - reg.start] == region[five.start - reg.start..five.stop + 1 - reg.start];
    assert region[sc.parentStop + 1 - reg.start..] == region[three.start - reg.start..three.stop + 1 - reg.start];
  }

  // ---------------------------------------------------------------------
  // Building the sequence

  /**
   * The asdpex run loop's assembly: an empty buffer, the 5' flank appended
   * when taken, the alt locus fetched and reverse complemented in place on
   * the minus strand (the steps of extractSequence), the 3' flank appended
   * when taken.
   */
  method AssembleAsdpex(store: Store, sc: Placement, reg: RegionInfo, identifier: string)
    returns (r: Option<seq<byte>>)
    ensures r == Extended(store, sc, reg, identifier, true)
  {
    var altExtended: seq<byte> := [];
    var five := FivePrimeWindow(reg, sc);
    if five.start < five.stop {
      var ref := Fetch(store, ParentSequence(sc), five.start, five.stop);
      if ref.None? {
        return None;
      }
      altExtended := altExtended + ref.value;
      assert altExtended == ref.value;
    }
    assert Flank(store, ParentSequence(sc), five, Taken(five)) == Some(altExtended);
    var bases := ExtractSequence(store, identifier, sc.altScafStart, sc.altScafStop, sc.strand);
    if bases.None? {
      return None;
    }
    assert Core(store, sc, identifier, true) == Some(bases.value);
    var prefix := altExtended + bases.value;
    altExtended := prefix;
    var three := ThreePrimeWindow(reg, sc);
    if three.start < three.stop {
      var ref := Fetch(store, ParentSequence(sc), three.start, three.stop);
      if ref.None? {
        return None;
      }
      altExtended := altExtended + ref.value;
    }
    assert altExtended == prefix + Flank(store, ParentSequence(sc), three, Taken(three)).value;
    return Some(altExtended);
  }

  /** The hg38 run loop's assembly: as in asdpex, but the alt locus is taken as fetched. */
  method AssembleHg38(store: Store, sc: Placement, reg: RegionInfo, identifier: string)
    returns (r: Option<seq<byte>>)
    ensures r == Extended(store, sc, reg, identifier, false)
  {
    var altExtended: seq<byte> := [];
    var five := FivePrimeWindow(reg, sc);
    if five.start < five.stop {
      var ref := Fetch(store, ParentSequence(sc), five.start, five.stop);
      if ref.None? {
        return None;
      }
      altExtended := altExtended + ref.value;
      assert altExtended == ref.value;
    }
    assert Flank(store, ParentSequence(sc), five, Taken(five)) == Some(altExtended);
    var alt := Fetch(store, identifier, sc.altScafStart, sc.altScafStop);
    if alt.None? {
      return None;
    }
    assert Core(store, sc, identifier, false) == Some(alt.value);
    var prefix := altExtended + alt.value;
    altExtended := prefix;
    var three := ThreePrimeWindow(reg, sc);
    if three.start < three.stop {
      var ref := Fetch(store, ParentSequence(sc), three.start, three.stop);
      if ref.None? {
        return None;
      }
      altExtended := altExtended + ref.value;
    }
    assert altExtended == prefix + Flank(store, ParentSequence(sc), three, Taken(three)).value;
    return Some(altExtended);
  }
}
