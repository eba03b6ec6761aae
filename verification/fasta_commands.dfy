/**
 * The run loops of the two CreateFastaCommand variants: for every alt
 * scaffold placement, look up its accession record and region, build the
 * extended alt locus, write it, then write the region's reference bases.
 * The asdpex variant hands its records to a writer whose file handling is
 * not part of this model, so its outcome is the list of records and their
 * targets; the hg38 variant writes through its own skip-if-exists writer.
 */
module FastaCommands {
  import opened Wrappers
  import opened Bases
  import opened RefStore
  import opened AccessionParser
  import opened Identifiers
  import opened FastaFile
  import opened ExtendedSequence

  /** The file a record goes to, and whether it is appended to what the file holds. */
  datatype Target = Target(path: string, append: bool)

  /** A file named `child` inside the directory `parent`. */
  function ChildPath(parent: string, child: string): string
  {
    parent + "/" + child
  }

  /**
   * Where asdpex writes an extended alt locus: a file of its own, replaced
   * on every write, in single-file mode; otherwise one file per region
   * that every alt locus of the region is appended to.
   */
  function AsdpexAltTarget(outPath: string, singleAltLociFile: bool, identifier: string, regionName: string): (t: Target)
    ensures t.append <==> !singleAltLociFile
  {
    if singleAltLociFile then Target(ChildPath(outPath + "/altLoci_single", identifier + "_extended.fa"), false)
    else Target(ChildPath(outPath + "/altLoci", regionName + "_altLoci.fa"), true)
  }

  /** Where asdpex writes the reference bases of a region, replacing the file. */
  function AsdpexRegionTarget(outPath: string, regionName: string): (t: Target)
    ensures !t.append
  {
    Target(ChildPath(outPath + "/regions", regionName + ".fa"), false)
  }

  /** `prefix + x + suffix` determines `x`. */
  lemma InfixInjective(prefix: string, x: string, y: string, suffix: string)
    ensures prefix + x + suffix == prefix + y + suffix <==> x == y
  {
    if prefix + x + suffix == prefix + y + suffix {
      assert |x| == |y|;
      assert x == (prefix + x + suffix)[|prefix|..|prefix| + |x|];
      assert y == (prefix + y + suffix)[|prefix|..|prefix| + |y|];
    }
  }

  /** In single-file mode two alt loci share a file exactly when they share an identifier. */
  lemma SingleTargetsSeparate(outPath: string, id1: string, id2: string, region1: string, region2: string)
    ensures AsdpexAltTarget(outPath, true, id1, region1) == AsdpexAltTarget(outPath, true, id2, region2)
        <==> id1 == id2
  {
    InfixInjective(outPath + "/altLoci_single/", id1, id2, "_extended.fa");
    assert AsdpexAltTarget(outPath, true, id1, region1).path == outPath + "/altLoci_single/" + id1 + "_extended.fa";
    assert AsdpexAltTarget(outPath, true, id2, region2).path == outPath + "/altLoci_single/" + id2 + "_extended.fa";
  }

  /** Otherwise two alt loci share a file exactly when they share a region. */
  lemma RegionTargetsShared(outPath: string, id1: string, id2: string, region1: string, region2: string)
    ensures AsdpexAltTarget(outPath, false, id1, region1) == AsdpexAltTarget(outPath, false, id2, region2)
        <==> region1 == region2
  {
    InfixInjective(outPath + "/altLoci/", region1, region2, "_altLoci.fa");
    assert AsdpexAltTarget(outPath, false, id1, region1).path == outPath + "/altLoci/" + region1 + "_altLoci.fa";
    assert AsdpexAltTarget(outPath, false, id2, region2).path == outPath + "/altLoci/" + region2 + "_altLoci.fa";
  }

  /** An alt locus file is never a region file. */
  lemma AltAndRegionTargetsDiffer(outPath: string, singleAltLociFile: bool, identifier: string,
                                  regionName: string, otherRegion: string)
    ensures AsdpexAltTarget(outPath, singleAltLociFile, identifier, regionName).path
         != AsdpexRegionTarget(outPath, otherRegion).path
  {
    var p := outPath + "/";
    assert AsdpexAltTarget(outPath, singleAltLociFile, identifier, regionName).path[|p|] == 'a';
    assert AsdpexRegionTarget(outPath, otherRegion).path[|p|] == 'r';
  }

  // ---------------------------------------------------------------------
  // asdpex

  /** One call of the asdpex writer: target, record name, bases. */
  datatype Write = Write(target: Target, name: string, bases: seq<byte>)

  /**
   * The records written before the loop stopped, and whether it went
   * through every placement. The loop stops at the first exception: a
   * missing record or region (a NullPointerException) or a window the store
   * does not hold.
   */
  datatype Outcome = Outcome(writes: seq<Write>, completed: bool)

  /** The extended alt locus of the placement can be built: its region, its record and its windows are there. */
  predicate Assembled(store: Store, aiMap: map<string, AccessionInfo>, regMap: map<string, RegionInfo>, sc: Placement)
  {
    && sc.region in regMap
    && sc.altScafAcc in aiMap
    && Extended(store, sc, regMap[sc.region], FastaIdentifier(aiMap[sc.altScafAcc]), true).Some?
  }

  /** Everything the placement needs is there: the extended alt locus and the region's bases. */
  predicate Available(store: Store, aiMap: map<string, AccessionInfo>, regMap: map<string, RegionInfo>, sc: Placement)
  {
    Assembled(store, aiMap, regMap, sc) && RegionBases(store, sc, regMap[sc.region]).Some?
  }

  /** The alt locus record asdpex writes for a placement. */
  function AsdpexAltRecord(store: Store, aiMap: map<string, AccessionInfo>, regMap: map<string, RegionInfo>,
                           sc: Placement, outPath: string, singleAltLociFile: bool): (w: Write)
    requires Assembled(store, aiMap, regMap, sc)
    ensures w.target.append <==> !singleAltLociFile
  {
    var reg, id := regMap[sc.region], FastaIdentifier(aiMap[sc.altScafAcc]);
    Write(AsdpexAltTarget(outPath, singleAltLociFile, id, reg.regionName), id, Extended(store, sc, reg, id, true).value)
  }

  /** The two records asdpex writes for an available placement: the alt locus, then the region. */
  function AsdpexRecords(store: Store, aiMap: map<string, AccessionInfo>, regMap: map<string, RegionInfo>,
                         sc: Placement, outPath: string, singleAltLociFile: bool): (ws: seq<Write>)
    requires Available(store, aiMap, regMap, sc)
    ensures |ws| == 2
    ensures ws[1].target.path != ws[0].target.path && !ws[1].target.append
  {
    var reg, id := regMap[sc.region], FastaIdentifier(aiMap[sc.altScafAcc]);
    AltAndRegionTargetsDiffer(outPath, singleAltLociFile, id, reg.regionName, reg.regionName);
    [AsdpexAltRecord(store, aiMap, regMap, sc, outPath, singleAltLociFile),
     Write(AsdpexRegionTarget(outPath, reg.regionName), reg.regionName, RegionBases(store, sc, reg).value)]
  }

  /**
   * One placement of the asdpex run loop: look up the region and the
   * record, assemble the extended alt locus, write it, fetch the region and
   * write it. When the region fetch throws, the alt locus record has
   * already been written.
   */
  method AsdpexScaffold(store: Store, aiMap: map<string, AccessionInfo>, regMap: map<string, RegionInfo>,
                        sc: Placement, outPath: string, singleAltLociFile: bool) returns (r: Outcome)
    ensures r.completed <==> Available(store, aiMap, regMap, sc)
    ensures r.completed ==> r.writes == AsdpexRecords(store, aiMap, regMap, sc, outPath, singleAltLociFile)
    ensures !r.completed ==>
      r.writes == if Assembled(store, aiMap, regMap, sc)
                  then [AsdpexAltRecord(store, aiMap, regMap, sc, outPath, singleAltLociFile)]
                  else []
  {
    if sc.region !in regMap || sc.altScafAcc !in aiMap {
      return Outcome([], false);
    }
    var reg := regMap[sc.region];
    var identifier := FastaIdentifier(aiMap[sc.altScafAcc]);
    var altExtended := AssembleAsdpex(store, sc, reg, identifier);
    if altExtended.None? {
      return Outcome([], false);
    }
    var writes := [Write(AsdpexAltTarget(outPath, singleAltLociFile, identifier, reg.regionName),
                         identifier, altExtended.value)];
    var region := Fetch(store, ParentSequence(sc), reg.start, reg.stop);
    if region.None? {
      return Outcome(writes, false);
    }
    writes := writes + [Write(AsdpexRegionTarget(outPath, reg.regionName), reg.regionName, region.value)];
    return Outcome(writes, true);
  }

  /** Appending a pair to a sequence of pairs keeps the pairs before it. */
  lemma PairsSnoc(writes: seq<Write>, pair: seq<Write>)
    requires |writes| % 2 == 0 && |pair| == 2
    ensures forall i :: 0 <= i < |writes| / 2 ==> (writes + pair)[2 * i..2 * i + 2] == writes[2 * i..2 * i + 2]
    ensures (writes + pair)[|writes|..|writes| + 2] == pair
  {
  }

  /** The asdpex run loop over the placements, in order. */
  method AsdpexRun(store: Store, aiMap: map<string, AccessionInfo>, regMap: map<string, RegionInfo>,
                   scaffolds: seq<Placement>, outPath: string, singleAltLociFile: bool) returns (r: Outcome)
    ensures r.completed <==> forall i :: 0 <= i < |scaffolds| ==> Available(store, aiMap, regMap, scaffolds[i])
    ensures r.completed ==> |r.writes| == 2 * |scaffolds|
    ensures r.completed ==> forall i :: 0 <= i < |scaffolds| ==>
      r.writes[2 * i..2 * i + 2] == AsdpexRecords(store, aiMap, regMap, scaffolds[i], outPath, singleAltLociFile)
  {
    var writes: seq<Write> := [];
    for n := 0 to |scaffolds|
      invariant forall i :: 0 <= i < n ==> Available(store, aiMap, regMap, scaffolds[i])
      invariant |writes| == 2 * n
      invariant forall i :: 0 <= i < n ==>
        writes[2 * i..2 * i + 2] == AsdpexRecords(store, aiMap, regMap, scaffolds[i], outPath, singleAltLociFile)
    {
      var step := AsdpexScaffold(store, aiMap, regMap, scaffolds[n], outPath, singleAltLociFile);
      if !step.completed {
        return Outcome(writes + step.writes, false);
      }
      PairsSnoc(writes, step.writes);
      writes := writes + step.writes;
    }
    return Outcome(writes, true);
  }

  // ---------------------------------------------------------------------
  // hg38

  /** `<out>/altLoci/<identifier>_extended.fa` */
  function Hg38AltPath(outPath: string, identifier: string): string
  {
    outPath + "/altLoci/" + identifier + "_extended.fa"
  }

  /** `<out>/regions/<regionName>.fa` */
  function Hg38RegionPath(outPath: string, regionName: string): string
  {
    outPath + "/regions/" + regionName + ".fa"
  }

  /** The alt locus and region files of the hg38 command never share a path. */
  lemma Hg38PathsDiffer(outPath: string, identifier: string, regionName: string)
    ensures Hg38AltPath(outPath, identifier) != Hg38RegionPath(outPath, regionName)
  {
    var p := outPath + "/";
    assert Hg38AltPath(outPath, identifier)[|p|] == 'a';
    assert Hg38RegionPath(outPath, regionName)[|p|] == 'r';
  }

  /** The inputs of a placement the hg38 variant needs. */
  predicate Hg38Available(store: Store, aiMap: map<string, AccessionInfo>, regMap: map<string, RegionInfo>, sc: Placement)
  {
    && sc.region in regMap
    && sc.altScafAcc in aiMap
    && Extended(store, sc, regMap[sc.region], FastaIdentifier(aiMap[sc.altScafAcc]), false).Some?
    && RegionBases(store, sc, regMap[sc.region]).Some?
  }

  /** Both files of the placement exist. */
  predicate Hg38Written(files: Files, aiMap: map<string, AccessionInfo>, regMap: map<string, RegionInfo>,
                        sc: Placement, outPath: string)
  {
    && sc.region in regMap
    && sc.altScafAcc in aiMap
    && Hg38AltPath(outPath, FastaIdentifier(aiMap[sc.altScafAcc])) in files
    && Hg38RegionPath(outPath, regMap[sc.region].regionName) in files
  }

  /** The files the hg38 writer leaves, and whether the loop may go on. */
  datatype Hg38Outcome = Hg38Outcome(files: Files, completed: bool)

  /**
   * One placement of the hg38 run loop: write the extended alt locus, fetch
   * the region and write it, each write skipped when its file exists. It
   * stops where the Java code throws: a missing record or region, a window
   * the store does not hold, or a line length of 0 for a record that is
   * written. A file written before the exception stays.
   */
  function Hg38Step(files: Files, store: Store, aiMap: map<string, AccessionInfo>, regMap: map<string, RegionInfo>,
                    sc: Placement, outPath: string, lineLength: int): (r: Hg38Outcome)
    ensures forall p :: p in files ==> p in r.files && r.files[p] == files[p]
    ensures r.completed ==> Hg38Available(store, aiMap, regMap, sc) && Hg38Written(r.files, aiMap, regMap, sc, outPath)
    ensures sc.region in regMap && sc.altScafAcc in aiMap ==>
      var reg, id := regMap[sc.region], FastaIdentifier(aiMap[sc.altScafAcc]);
      var altPath, regionPath := Hg38AltPath(outPath, id), Hg38RegionPath(outPath, reg.regionName);
      && r.files.Keys <= files.Keys + {altPath, regionPath}
      && (r.completed && altPath !in files ==>
            var bases := Extended(store, sc, reg, id, false).value;
            (lineLength != 0 || |bases| <= 1) && r.files[altPath] == FastaText(id, bases, Abs(lineLength)))
      && (r.completed && regionPath !in files ==>
            var bases := RegionBases(store, sc, reg).value;
            (lineLength != 0 || |bases| <= 1) && r.files[regionPath] == FastaText(reg.regionName, bases, Abs(lineLength)))
    ensures sc.region !in regMap || sc.altScafAcc !in aiMap ==> r.files == files
  {
    if sc.region !in regMap || sc.altScafAcc !in aiMap then Hg38Outcome(files, false)
    else
      var reg, id := regMap[sc.region], FastaIdentifier(aiMap[sc.altScafAcc]);
      Hg38PathsDiffer(outPath, id, reg.regionName);
      match Extended(store, sc, reg, id, false)
      case None => Hg38Outcome(files, false)
      case Some(altExtended) =>
        match CreateFastaFileHg38(files, Hg38AltPath(outPath, id), id, altExtended, lineLength)
        case None => Hg38Outcome(files, false)
        case Some(afterAlt) =>
          match RegionBases(store, sc, reg)
          case None => Hg38Outcome(afterAlt, false)
          case Some(region) =>
            match CreateFastaFileHg38(afterAlt, Hg38RegionPath(outPath, reg.regionName), reg.regionName, region, lineLength)
            case None => Hg38Outcome(afterAlt, false)
            case Some(afterRegion) => Hg38Outcome(afterRegion, true)
  }

  /**
   * A placement whose files both exist and whose inputs are there goes
   * through and changes nothing, whatever the line length.
   */
  lemma Hg38StepSkips(files: Files, store: Store, aiMap: map<string, AccessionInfo>, regMap: map<string, RegionInfo>,
                      sc: Placement, outPath: string, lineLength: int)
    requires Hg38Available(store, aiMap, regMap, sc) && Hg38Written(files, aiMap, regMap, sc, outPath)
    ensures Hg38Step(files, store, aiMap, regMap, sc, outPath, lineLength) == Hg38Outcome(files, true)
  {
  }

  /** One placement of the hg38 run loop, step by step. */
  method Hg38Scaffold(files: Files, store: Store, aiMap: map<string, AccessionInfo>, regMap: map<string, RegionInfo>,
                      sc: Placement, outPath: string, lineLength: int) returns (r: Hg38Outcome)
    ensures r == Hg38Step(files, store, aiMap, regMap, sc, outPath, lineLength)
  {
    if sc.region !in regMap || sc.altScafAcc !in aiMap {
      return Hg38Outcome(files, false);
    }
    var reg := regMap[sc.region];
    var identifier := FastaIdentifier(aiMap[sc.altScafAcc]);
    var altExtended := AssembleHg38(store, sc, reg, identifier);
    if altExtended.None? {
      return Hg38Outcome(files, false);
    }
    var afterAlt := CreateFastaFileHg38(files, Hg38AltPath(outPath, identifier), identifier, altExtended.value, lineLength);
    if afterAlt.None? {
      return Hg38Outcome(files, false);
    }
    var region := Fetch(store, ParentSequence(sc), reg.start, reg.stop);
    if region.None? {
      return Hg38Outcome(afterAlt.value, false);
    }
    var afterRegion := CreateFastaFileHg38(afterAlt.value, Hg38RegionPath(outPath, reg.regionName), reg.regionName,
                                           region.value, lineLength);
    if afterRegion.None? {
      return Hg38Outcome(afterAlt.value, false);
    }
    return Hg38Outcome(afterRegion.value, true);
  }

  /** The hg38 run loop from `files` over the placements, in order, up to the first exception. */
  function Hg38RunFrom(files: Files, store: Store, aiMap: map<string, AccessionInfo>, regMap: map<string, RegionInfo>,
                       scaffolds: seq<Placement>, outPath: string, lineLength: int): Hg38Outcome
    decreases |scaffolds|
  {
    if |scaffolds| == 0 then Hg38Outcome(files, true)
    else
      var step := Hg38Step(files, store, aiMap, regMap, scaffolds[0], outPath, lineLength);
      if !step.completed then step
      else Hg38RunFrom(step.files, store, aiMap, regMap, scaffolds[1..], outPath, lineLength)
  }

  /** The hg38 run loop. */
  method Hg38Run(files: Files, store: Store, aiMap: map<string, AccessionInfo>, regMap: map<string, RegionInfo>,
                 scaffolds: seq<Placement>, outPath: string, lineLength: int) returns (r: Hg38Outcome)
    ensures r == Hg38RunFrom(files, store, aiMap, regMap, scaffolds, outPath, lineLength)
  {
    var current := files;
    for n := 0 to |scaffolds|
      invariant Hg38RunFrom(files, store, aiMap, regMap, scaffolds, outPath, lineLength)
             == Hg38RunFrom(current, store, aiMap, regMap, scaffolds[n..], outPath, lineLength)
    {
      assert scaffolds[n..][1..] == scaffolds[n + 1..];
      var step := Hg38Scaffold(current, store, aiMap, regMap, scaffolds[n], outPath, lineLength);
      if !step.completed {
        return step;
      }
      current := step.files;
    }
    return Hg38Outcome(current, true);
  }

  /** A file that exists before the run keeps its content: the writer never touches an existing file. */
  lemma {:induction false} Hg38RunKeepsFiles(files: Files, store: Store, aiMap: map<string, AccessionInfo>,
                                             regMap: map<string, RegionInfo>, scaffolds: seq<Placement>,
                                             outPath: string, lineLength: int)
    ensures var r := Hg38RunFrom(files, store, aiMap, regMap, scaffolds, outPath, lineLength);
      forall p :: p in files ==> p in r.files && r.files[p] == files[p]
    decreases |scaffolds|
  {
    if |scaffolds| > 0 {
      var step := Hg38Step(files, store, aiMap, regMap, scaffolds[0], outPath, lineLength);
      if step.completed {
        Hg38RunKeepsFiles(step.files, store, aiMap, regMap, scaffolds[1..], outPath, lineLength);
      }
    }
  }

  /** After a run that went through, every placement had its inputs and both its files exist. */
  lemma {:induction false} Hg38RunWritesAll(files: Files, store: Store, aiMap: map<string, AccessionInfo>,
                                            regMap: map<string, RegionInfo>, scaffolds: seq<Placement>,
                                            outPath: string, lineLength: int)
    ensures var r := Hg38RunFrom(files, store, aiMap, regMap, scaffolds, outPath, lineLength);
      r.completed ==> forall i :: 0 <= i < |scaffolds| ==>
        Hg38Available(store, aiMap, regMap, scaffolds[i]) && Hg38Written(r.files, aiMap, regMap, scaffolds[i], outPath)
    decreases |scaffolds|
  {
    var r := Hg38RunFrom(files, store, aiMap, regMap, scaffolds, outPath, lineLength);
    if |scaffolds| > 0 && r.completed {
      var step := Hg38Step(files, store, aiMap, regMap, scaffolds[0], outPath, lineLength);
      var rest := scaffolds[1..];
      Hg38RunWritesAll(step.files, store, aiMap, regMap, rest, outPath, lineLength);
      Hg38RunKeepsFiles(step.files, store, aiMap, regMap, rest, outPath, lineLength);
      forall i | 0 <= i < |scaffolds|
        ensures Hg38Available(store, aiMap, regMap, scaffolds[i]) && Hg38Written(r.files, aiMap, regMap, scaffolds[i], outPath)
      {
        if i > 0 {
          assert scaffolds[i] == rest[i - 1];
        }
      }
    }
  }

  /** A run over placements whose inputs are there and whose files all exist changes nothing. */
  lemma {:induction false} Hg38RunSkipsWritten(files: Files, store: Store, aiMap: map<string, AccessionInfo>,
                                               regMap: map<string, RegionInfo>, scaffolds: seq<Placement>,
                                               outPath: string, lineLength: int)
    requires forall i :: 0 <= i < |scaffolds| ==>
      Hg38Available(store, aiMap, regMap, scaffolds[i]) && Hg38Written(files, aiMap, regMap, scaffolds[i], outPath)
    ensures Hg38RunFrom(files, store, aiMap, regMap, scaffolds, outPath, lineLength) == Hg38Outcome(files, true)
    decreases |scaffolds|
  {
    if |scaffolds| > 0 {
      Hg38StepSkips(files, store, aiMap, regMap, scaffolds[0], outPath, lineLength);
      var rest := scaffolds[1..];
      assert forall i :: 0 <= i < |rest| ==> rest[i] == scaffolds[i + 1];
      Hg38RunSkipsWritten(files, store, aiMap, regMap, rest, outPath, lineLength);
    }
  }

  /** Running the hg38 command again on what a completed run left changes nothing. */
  lemma Hg38RunIdempotent(files: Files, store: Store, aiMap: map<string, AccessionInfo>,
                          regMap: map<string, RegionInfo>, scaffolds: seq<Placement>,
                          outPath: string, lineLength: int)
    requires Hg38RunFrom(files, store, aiMap, regMap, scaffolds, outPath, lineLength).completed
    ensures var once := Hg38RunFrom(files, store, aiMap, regMap, scaffolds, outPath, lineLength).files;
      Hg38RunFrom(once, store, aiMap, regMap, scaffolds, outPath, lineLength) == Hg38Outcome(once, true)
  {
    var once := Hg38RunFrom(files, store, aiMap, regMap, scaffolds, outPath, lineLength).files;
    Hg38RunWritesAll(files, store, aiMap, regMap, scaffolds, outPath, lineLength);
    Hg38RunSkipsWritten(once, store, aiMap, regMap, scaffolds, outPath, lineLength);
  }
}
