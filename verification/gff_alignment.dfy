/**
 * The immutable pairwise alignment record (NCBIgffAlignment): reference and
 * alt-scaffold ids, 1-based inclusive start/stop on both sides, the two
 * strands and the ordered list of typed alignment elements, together with
 * its GFF-style text rendering (toString) and an inverse of that rendering.
 */
module GffAlignment {
  import opened Wrappers
  import opened Text

  datatype ElementType = Match | Insertion | Deletion

  /** One alignment operation with its length (a Java int). */
  datatype Element = Element(kind: ElementType, length: int)

  /**
   * The constructor of this datatype stores the nine fields unchanged and its
   * destructors are the record's getters.
   */
  datatype Alignment = Alignment(
    refId: string,
    altId: string,
    refStart: int,
    refStop: int,
    refStrand: bool,
    altStart: int,
    altStop: int,
    altStrand: bool,
    elements: seq<Element>)

  /** Reference bases an element covers: MATCH and DELETION consume the reference. */
  function RefConsumed(e: Element): int
  {
    if e.kind == Insertion then 0 else e.length
  }

  /** Alt bases an element covers: MATCH and INSERTION consume the alt scaffold. */
  function AltConsumed(e: Element): int
  {
    if e.kind == Deletion then 0 else e.length
  }

  /** Total reference length covered by a list of elements. */
  function RefSpan(es: seq<Element>): int
  {
    if es == [] then 0 else RefSpan(es[..|es| - 1]) + RefConsumed(es[|es| - 1])
  }

  /** Total alt length covered by a list of elements. */
  function AltSpan(es: seq<Element>): int
  {
    if es == [] then 0 else AltSpan(es[..|es| - 1]) + AltConsumed(es[|es| - 1])
  }

  lemma {:induction false} RefSpanConcat(xs: seq<Element>, ys: seq<Element>)
    ensures RefSpan(xs + ys) == RefSpan(xs) + RefSpan(ys)
    decreases |ys|
  {
    if ys != [] {
      var init := ys[..|ys| - 1];
      assert (xs + ys)[..|xs + ys| - 1] == xs + init;
      RefSpanConcat(xs, init);
    } else {
      assert xs + ys == xs;
    }
  }

  lemma {:induction false} AltSpanConcat(xs: seq<Element>, ys: seq<Element>)
    ensures AltSpan(xs + ys) == AltSpan(xs) + AltSpan(ys)
    decreases |ys|
  {
    if ys != [] {
      var init := ys[..|ys| - 1];
      assert (xs + ys)[..|xs + ys| - 1] == xs + init;
      AltSpanConcat(xs, init);
    } else {
      assert xs + ys == xs;
    }
  }

  /**
   * The record invariant the alignment files obey: each inclusive window is
   * exactly as long as the elements that consume that side.
   */
  predicate Consistent(a: Alignment)
  {
    && a.refStop - a.refStart + 1 == RefSpan(a.elements)
    && a.altStop - a.altStart + 1 == AltSpan(a.elements)
  }

  // ---------------------------------------------------------------------
  // toString

  /** StringBuilder.append(boolean). */
  function BoolToString(b: bool): string
  {
    if b then "true" else "false"
  }

  function TypeCode(k: ElementType): char
  {
    match k
    case Match => 'M'
    case Insertion => 'I'
    case Deletion => 'D'
  }

  /** One Gap token: type letter, length, then a space. */
  function GapToken(e: Element): string
  {
    [TypeCode(e.kind)] + IntToString(e.length) + " "
  }

  /** The Gap attribute: the tokens of all elements, in element order. */
  function Gap(es: seq<Element>): string
  {
    if es == [] then "" else GapToken(es[0]) + Gap(es[1..])
  }

    /** `line` followed by a tab and the next field, as each append pair of toString adds. */
  function Tab(line: string, field: string): string
  {
    line + "\t" + field
  }

  /**
   * NCBIgffAlignment.toString: refId, "RefSeq", "macth", refStart, refStop,
   * "0", refStrand, ".", "Target=" + altId, altStart, altStop, then the alt
   * strand, ";Gap=" and the Gap tokens, tab-separated.
   */
  function ToString(a: Alignment): string
  {
    Tab(Tab(Tab(Tab(Tab(Tab(Tab(Tab(Tab(Tab(Tab(
      a.refId, "RefSeq"), "macth"), IntToString(a.refStart)), IntToString(a.refStop)), "0"),
      BoolToString(a.refStrand)), "."), "Target=" + a.altId), IntToString(a.altStart)),
      IntToString(a.altStop)), BoolToString(a.altStrand) + ";Gap=" + Gap(a.elements))
  }

  /** The Gap text of a concatenation is the concatenation of the Gap texts. */
  lemma {:induction false} GapConcat(xs: seq<Element>, ys: seq<Element>)
    ensures Gap(xs + ys) == Gap(xs) + Gap(ys)
  {
    if xs == [] {
      assert xs + ys == ys;
    } else {
      assert (xs + ys)[1..] == xs[1..] + ys;
      GapConcat(xs[1..], ys);
    }
  }

  /** A token holds exactly one space, its terminator. */
  lemma TokenSpaces(e: Element)
    ensures multiset(GapToken(e))[' '] == 1
  {
    var digits := IntToString(e.length);
    assert GapToken(e) == [TypeCode(e.kind)] + digits + [' '];
    assert multiset(digits)[' '] == 0;
  }

  /** The Gap text holds exactly one space-terminated token per element. */
  lemma {:induction false} GapSpaces(es: seq<Element>)
    ensures multiset(Gap(es))[' '] == |es|
  {
    if es != [] {
      GapSpaces(es[1..]);
      TokenSpaces(es[0]);
      assert Gap(es) == GapToken(es[0]) + Gap(es[1..]);
    }
  }

  // ---------------------------------------------------------------------
  // Decoding the text back

  function ParseTypeCode(c: char): Option<ElementType>
  {
    if c == 'M' then Some(Match)
    else if c == 'I' then Some(Insertion)
    else if c == 'D' then Some(Deletion)
    else None
  }

  /** Reads a sequence of space-terminated Gap tokens. */
  function ParseGap(s: string): Option<seq<Element>>
    decreases |s|
  {
    if |s| == 0 then Some([])
    else if ' ' !in s then None
    else
      var j := IndexOf(s, ' ');
      if j == 0 then None
      else
        match (ParseTypeCode(s[0]), ParseInt(s[1..j]), ParseGap(s[j + 1..]))
        case (Some(k), Some(n), Some(rest)) => Some([Element(k, n)] + rest)
        case _ => None
  }

  function ParseBool(s: string): Option<bool>
  {
    if s == "true" then Some(true) else if s == "false" then Some(false) else None
  }

  /** Reads the last tab field: the alt strand, ";Gap=" and the tokens. */
  function ParseStrandAndGap(s: string): Option<(bool, seq<Element>)>
  {
    if |s| >= 9 && s[..9] == "true;Gap=" then
      match ParseGap(s[9..])
      case Some(es) => Some((true, es))
      case None => None
    else if |s| >= 10 && s[..10] == "false;Gap=" then
      match ParseGap(s[10..])
      case Some(es) => Some((false, es))
      case None => None
    else None
  }

  /** Reads back the text ToString produces. */
  function ParseAlignment(s: string): Option<Alignment>
  {
    var f := SplitAll(s, '\t');
    if |f| != 12 || f[1] != "RefSeq" || f[2] != "macth" || f[5] != "0" || f[7] != "." then None
    else if |f[8]| < 7 || f[8][..7] != "Target=" then None
    else
      match (ParseInt(f[3]), ParseInt(f[4]), ParseBool(f[6]), ParseInt(f[9]), ParseInt(f[10]), ParseStrandAndGap(f[11]))
      case (Some(rs), Some(re), Some(rstr), Some(als), Some(ale), Some((astr, es))) =>
        Some(Alignment(f[0], f[8][7..], rs, re, rstr, als, ale, astr, es))
      case _ => None
  }

  /** Every number of the record fits a Java int, as it does in the Java object. */
  predicate IntFields(a: Alignment)
  {
    && InIntRange(a.refStart) && InIntRange(a.refStop)
    && InIntRange(a.altStart) && InIntRange(a.altStop)
    && forall k :: 0 <= k < |a.elements| ==> InIntRange(a.elements[k].length)
  }

  /** How ParseGap sees the first token of a Gap text. */
  lemma GapTokenFront(e: Element, rest: string)
    ensures var s := GapToken(e) + rest;
      && ' ' in s && IndexOf(s, ' ') == |GapToken(e)| - 1 > 0
      && s[0] == TypeCode(e.kind)
      && s[1..IndexOf(s, ' ')] == IntToString(e.length)
      && s[IndexOf(s, ' ') + 1..] == rest
  {
    var p := [TypeCode(e.kind)] + IntToString(e.length);
    assert ' ' !in IntToString(e.length);
    assert ' ' !in p;
    assert GapToken(e) + rest == p + [' '] + rest;
    IndexOfAfterPrefix(p, ' ', rest);
    assert (p + [' '] + rest)[1..|p|] == IntToString(e.length);
    assert (p + [' '] + rest)[|p| + 1..] == rest;
  }

  lemma {:induction false} ParseGapOfGap(es: seq<Element>)
    requires forall k :: 0 <= k < |es| ==> InIntRange(es[k].length)
    ensures ParseGap(Gap(es)) == Some(es)
  {
    if es != [] {
      var e := es[0];
      GapTokenFront(e, Gap(es[1..]));
      ParseIntOfIntToString(e.length);
      ParseGapOfGap(es[1..]);
      assert ParseTypeCode(TypeCode(e.kind)) == Some(e.kind);
      assert [Element(e.kind, e.length)] + es[1..] == es;
    }
  }

  /** The tab-separated fields of the rendering, in the order toString writes them. */
  function Fields(a: Alignment): seq<string>
  {
    [a.refId, "RefSeq", "macth", IntToString(a.refStart), IntToString(a.refStop), "0",
     BoolToString(a.refStrand), ".", "Target=" + a.altId, IntToString(a.altStart),
     IntToString(a.altStop), BoolToString(a.altStrand) + ";Gap=" + Gap(a.elements)]
  }

  lemma {:induction false} GapHasNoTab(es: seq<Element>)
    ensures '\t' !in Gap(es)
  {
    if es != [] {
      GapHasNoTab(es[1..]);
      assert '\t' !in IntToString(es[0].length);
    }
  }

  lemma FieldsHaveNoTab(a: Alignment)
    requires '\t' !in a.refId && '\t' !in a.altId
    ensures forall k :: 0 <= k < |Fields(a)| ==> '\t' !in Fields(a)[k]
  {
    GapHasNoTab(a.elements);
    var f := Fields(a);
    assert '\t' !in f[3] && '\t' !in f[4] && '\t' !in f[9] && '\t' !in f[10];
    assert '\t' !in f[11];
  }

  /** The text toString builds, written as the fields glued by tabs. */
  function Glued(f: seq<string>, k: nat): string
    requires 1 <= k <= |f|
  {
    if k == 1 then f[0] else Tab(Glued(f, k - 1), f[k - 1])
  }

  lemma ToStringIsGlued(a: Alignment)
    ensures ToString(a) == Glued(Fields(a), 12)
  {
    var f := Fields(a);
    assert Glued(f, 1) == a.refId;
    assert Glued(f, 3) == Tab(Tab(a.refId, "RefSeq"), "macth");
    assert Glued(f, 5) == Tab(Tab(Glued(f, 3), IntToString(a.refStart)), IntToString(a.refStop));
    assert Glued(f, 7) == Tab(Tab(Glued(f, 5), "0"), BoolToString(a.refStrand));
    assert Glued(f, 9) == Tab(Tab(Glued(f, 7), "."), "Target=" + a.altId);
    assert Glued(f, 11) == Tab(Tab(Glued(f, 9), IntToString(a.altStart)), IntToString(a.altStop));
  }

  lemma {:induction false} SplitGlued(f: seq<string>, k: nat)
    requires 1 <= k <= |f|
    requires forall i :: 0 <= i < |f| ==> '\t' !in f[i]
    ensures SplitAll(Glued(f, k), '\t') == f[..k]
  {
    if k == 1 {
      SplitAllNoSep(f[0], '\t');
    } else {
      var g, last := Glued(f, k - 1), f[k - 1];
      assert Glued(f, k) == g + ['\t'] + last;
      SplitGlued(f, k - 1);
      SplitAllAppend(g, '\t', last);
      assert f[..k - 1] + [last] == f[..k];
    }
  }

  /**
   * The layout of toString: split on tabs, the text gives back the twelve
   * fields refId, "RefSeq", "macth", refStart, refStop, "0", refStrand, ".",
   * "Target=" + altId, altStart, altStop and altStrand + ";Gap=" + tokens.
   */
  lemma ToStringLayout(a: Alignment)
    requires '\t' !in a.refId && '\t' !in a.altId
    ensures SplitAll(ToString(a), '\t') == Fields(a)
  {
    FieldsHaveNoTab(a);
    ToStringIsGlued(a);
    SplitGlued(Fields(a), 12);
    assert Fields(a)[..12] == Fields(a);
  }

  lemma PrefixSlices(p: string, g: string)
    ensures (p + g)[..|p|] == p && (p + g)[|p|..] == g
  {
  }

  lemma ParseStrandAndGapOfField(b: bool, g: string, es: seq<Element>)
    requires ParseGap(g) == Some(es)
    ensures ParseStrandAndGap(BoolToString(b) + ";Gap=" + g) == Some((b, es))
  {
    var p := BoolToString(b) + ";Gap=";
    PrefixSlices(p, g);
    if b {
      assert p == "true;Gap=";
    } else {
      assert p == "false;Gap=";
      assert (p + g)[0] == 'f';
    }
  }

  /** What ParseAlignment needs of the tab fields of its input to return `a`. */
  predicate FieldsDecodeTo(f: seq<string>, a: Alignment)
  {
    && |f| == 12 && f[0] == a.refId && f[1] == "RefSeq" && f[2] == "macth" && f[5] == "0" && f[7] == "."
    && |f[8]| >= 7 && f[8][..7] == "Target=" && f[8][7..] == a.altId
    && ParseInt(f[3]) == Some(a.refStart) && ParseInt(f[4]) == Some(a.refStop)
    && ParseBool(f[6]) == Some(a.refStrand)
    && ParseInt(f[9]) == Some(a.altStart) && ParseInt(f[10]) == Some(a.altStop)
    && ParseStrandAndGap(f[11]) == Some((a.altStrand, a.elements))
  }

  lemma ParseAlignmentOfFields(s: string, a: Alignment)
    requires FieldsDecodeTo(SplitAll(s, '\t'), a)
    ensures ParseAlignment(s) == Some(a)
  {
  }

  /** The four position fields read back as the positions. */
  lemma PositionFieldsDecode(a: Alignment)
    requires IntFields(a)
    ensures var f := Fields(a);
      && ParseInt(f[3]) == Some(a.refStart) && ParseInt(f[4]) == Some(a.refStop)
      && ParseInt(f[9]) == Some(a.altStart) && ParseInt(f[10]) == Some(a.altStop)
  {
    ParseIntOfIntToString(a.refStart);
    ParseIntOfIntToString(a.refStop);
    ParseIntOfIntToString(a.altStart);
    ParseIntOfIntToString(a.altStop);
  }

  lemma FieldsDecode(a: Alignment)
    requires IntFields(a)
    ensures FieldsDecodeTo(Fields(a), a)
  {
    var f := Fields(a);
    assert |f| == 12 && f[0] == a.refId && f[1] == "RefSeq" && f[2] == "macth" && f[5] == "0" && f[7] == ".";
    assert f[8][..7] == "Target=" && f[8][7..] == a.altId;
    PositionFieldsDecode(a);
    assert ParseBool(f[6]) == Some(a.refStrand);
    assert ParseStrandAndGap(f[11]) == Some((a.altStrand, a.elements)) by {
      ParseGapOfGap(a.elements);
      ParseStrandAndGapOfField(a.altStrand, Gap(a.elements), a.elements);
    }
  }

  /** ToString loses nothing: the record can be read back from its text. */
  lemma ParseToString(a: Alignment)
    requires '\t' !in a.refId && '\t' !in a.altId
    requires IntFields(a)
    ensures ParseAlignment(ToString(a)) == Some(a)
  {
    ToStringLayout(a);
    FieldsDecode(a);
    ParseAlignmentOfFields(ToString(a), a);
  }
}
