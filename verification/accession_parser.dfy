/**
 * The reader of NCBI's alts_accessions file: five tab-separated fields per
 * line (chromosome, RefSeq accession.version, RefSeq gi, GenBank
 * accession.version, GenBank gi), comment lines starting with '#',
 * malformed lines reported and dropped, records keyed by their RefSeq
 * accession.version.
 */
module AccessionParser {
  import opened Wrappers
  import opened Text

  /** Number of tab-separated fields of a line. */
  const NFields: nat := 5

  datatype AccessionInfo = AccessionInfo(
    chromosome: string,
    refseqAccessionVersion: string,
    refseqGi: int,
    genbankAccessionVersion: string,
    genbankGi: int)

  /** Why a line was rejected. */
  datatype ParseError =
    | WrongFieldCount(count: nat)
    | BadRefseqGi(field: string)
    | BadGenbankGi(field: string)

  /**
   * createBuilderFromLine: split on tab as String.split does (trailing
   * empty fields dropped), demand exactly five fields, parse fields 2 and 4
   * as Java ints.
   */
  function CreateBuilderFromLine(line: string): (r: Result<AccessionInfo, ParseError>)
    ensures var fields := JavaSplit(line, '\t');
      && (r.Ok? <==> |fields| == NFields && ParseInt(fields[2]).Some? && ParseInt(fields[4]).Some?)
      && (r == Err(WrongFieldCount(|fields|)) <==> |fields| != NFields)
      && (r.Ok? ==> r.value == AccessionInfo(fields[0], fields[1], ParseInt(fields[2]).value,
                                             fields[3], ParseInt(fields[4]).value))
  {
    var fields := JavaSplit(line, '\t');
    if |fields| != NFields then Err(WrongFieldCount(|fields|))
    else match ParseInt(fields[2])
      case None => Err(BadRefseqGi(fields[2]))
      case Some(refseqGi) =>
        match ParseInt(fields[4])
        case None => Err(BadGenbankGi(fields[4]))
        case Some(genbankGi) =>
          Ok(AccessionInfo(fields[0], fields[1], refseqGi, fields[3], genbankGi))
  }

  /** A record written back as a line of the file. */
  function FormatLine(info: AccessionInfo): string
  {
    Join([info.chromosome, info.refseqAccessionVersion, IntToString(info.refseqGi),
          info.genbankAccessionVersion, IntToString(info.genbankGi)], '\t')
  }

  /** A record whose text fields hold no tab and whose gis are Java ints. */
  predicate Writable(info: AccessionInfo)
  {
    && '\t' !in info.chromosome
    && '\t' !in info.refseqAccessionVersion
    && '\t' !in info.genbankAccessionVersion
    && InIntRange(info.refseqGi)
    && InIntRange(info.genbankGi)
  }

  /** Reading a formatted line gives back the record. */
  lemma ParseFormatLine(info: AccessionInfo)
    requires Writable(info)
    ensures CreateBuilderFromLine(FormatLine(info)) == Ok(info)
  {
    var parts := [info.chromosome, info.refseqAccessionVersion, IntToString(info.refseqGi),
                  info.genbankAccessionVersion, IntToString(info.genbankGi)];
    var line := FormatLine(info);
    assert forall k :: 0 <= k < |parts| ==> '\t' !in parts[k];
    SplitAllOfJoin(parts, '\t');
    JoinPrefixStep(parts, '\t', 1);
    assert parts[..1] == [parts[0]];
    assert '\t' in line by {
      assert line == Join(parts[..4], '\t') + ['\t'] + parts[4] by {
        assert parts[..5] == parts;
      }
    }
    assert JavaSplit(line, '\t') == parts by {
      assert DropTrailingEmpty(parts) == parts;
    }
    ParseIntOfIntToString(info.refseqGi);
    ParseIntOfIntToString(info.genbankGi);
  }

  /** A tab at the end of a line changes nothing: Java drops the empty last field. */
  lemma TrailingTabIgnored(line: string)
    requires line != ""
    ensures CreateBuilderFromLine(line + "\t") == CreateBuilderFromLine(line)
  {
    JavaSplitTrailingSeparator(line, '\t');
  }

  // ---------------------------------------------------------------------
  // parse

  predicate IsComment(line: string)
  {
    |line| > 0 && line[0] == '#'
  }

  /** The records the lines yield, in order: comments and malformed lines give none. */
  function Accepted(lines: seq<string>): seq<AccessionInfo>
  {
    if |lines| == 0 then []
    else
      var last := lines[|lines| - 1];
      Accepted(lines[..|lines| - 1]) +
        (if IsComment(last) then []
         else match CreateBuilderFromLine(last)
           case Ok(info) => [info]
           case Err(_) => [])
  }

  /** The records of two blocks of lines are the records of each block. */
  lemma {:induction false} AcceptedConcat(xs: seq<string>, ys: seq<string>)
    ensures Accepted(xs + ys) == Accepted(xs) + Accepted(ys)
    decreases |ys|
  {
    if |ys| == 0 {
      assert xs + ys == xs;
    } else {
      var init := ys[..|ys| - 1];
      assert (xs + ys)[..|xs + ys| - 1] == xs + init;
      AcceptedConcat(xs, init);
    }
  }

  /** Every record comes from a non-comment line that parses to it. */
  lemma {:induction false} AcceptedFromLines(lines: seq<string>, i: int)
    requires 0 <= i < |Accepted(lines)|
    ensures exists k :: 0 <= k < |lines| && !IsComment(lines[k]) && CreateBuilderFromLine(lines[k]) == Ok(Accepted(lines)[i])
    decreases |lines|
  {
    var init := lines[..|lines| - 1];
    if i < |Accepted(init)| {
      AcceptedFromLines(init, i);
      var k :| 0 <= k < |init| && !IsComment(init[k]) && CreateBuilderFromLine(init[k]) == Ok(Accepted(init)[i]);
      assert lines[k] == init[k];
    } else {
      assert !IsComment(lines[|lines| - 1]);
    }
  }

  /** No two records share a RefSeq accession.version. */
  predicate DistinctKeys(infos: seq<AccessionInfo>)
  {
    forall i, j :: 0 <= i < j < |infos| ==> infos[i].refseqAccessionVersion != infos[j].refseqAccessionVersion
  }

  /**
   * ImmutableMap.Builder.build: the records keyed by RefSeq
   * accession.version; a repeated key makes the build fail.
   */
  function BuildMap(infos: seq<AccessionInfo>): (r: Option<map<string, AccessionInfo>>)
    ensures r.Some? ==> r.value.Keys == set i | 0 <= i < |infos| :: infos[i].refseqAccessionVersion
  {
    if |infos| == 0 then Some(map[])
    else
      var init, last := infos[..|infos| - 1], infos[|infos| - 1];
      match BuildMap(init)
      case None => None
      case Some(m) =>
        if last.refseqAccessionVersion in m then None
        else Some(m[last.refseqAccessionVersion := last])
  }

  /** The keys are distinct when those before the last are and the last key is new. */
  lemma DistinctKeysSnoc(infos: seq<AccessionInfo>)
    requires |infos| > 0
    ensures var init, key := infos[..|infos| - 1], infos[|infos| - 1].refseqAccessionVersion;
      DistinctKeys(infos) <==>
        DistinctKeys(init) && key !in set i | 0 <= i < |init| :: init[i].refseqAccessionVersion
  {
  }

  /** The build succeeds exactly when the keys are distinct. */
  lemma {:induction false} BuildMapSucceeds(infos: seq<AccessionInfo>)
    ensures BuildMap(infos).Some? <==> DistinctKeys(infos)
    decreases |infos|
  {
    if |infos| > 0 {
      BuildMapSucceeds(infos[..|infos| - 1]);
      DistinctKeysSnoc(infos);
    }
  }

  /** After a successful build every record is found under its key. */
  lemma {:induction false} BuildMapLookup(infos: seq<AccessionInfo>, i: int)
    requires BuildMap(infos).Some? && 0 <= i < |infos|
    ensures BuildMap(infos).value[infos[i].refseqAccessionVersion] == infos[i]
    decreases |infos|
  {
    var init := infos[..|infos| - 1];
    if i < |init| {
      BuildMapLookup(init, i);
      assert init[i].refseqAccessionVersion in BuildMap(init).value.Keys;
    }
  }

  /**
   * parse: lines starting with '#' are skipped, a line that fails to parse
   * is dropped and the loop goes on, every other line's record is put under
   * its RefSeq accession.version; the map is built at the end.
   */
  method Parse(lines: seq<string>) returns (r: Option<map<string, AccessionInfo>>)
    ensures r == BuildMap(Accepted(lines))
  {
    var result: seq<AccessionInfo> := [];
    for n := 0 to |lines|
      invariant result == Accepted(lines[..n])
    {
      var line := lines[n];
      assert lines[..n + 1][..n] == lines[..n];
      if IsComment(line) {
        continue;
      }
      var builder := CreateBuilderFromLine(line);
      if builder.Err? {
        continue;
      }
      result := result + [builder.value];
    }
    assert lines[..|lines|] == lines;
    r := BuildMap(result);
  }
}
