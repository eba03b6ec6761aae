/**
 * The block step of AlignCommand.run: the N blocks of an alt locus piece
 * are listed, and every short one (at most 10 bases) makes writeFilesToDisc
 * write the alt locus and reference FASTA files of the block.
 */
module BlockFiles {
  import opened Wrappers
  import opened Text
  import opened Bases
  import opened NBlocks
  import opened FastaFile

  /** `<temp>/<identifier>_altLoci_<block>.fa` */
  function AltLociPath(tempFolder: string, identifier: string, block: int): string
  {
    tempFolder + "/" + identifier + "_altLoci_" + IntToString(block) + ".fa"
  }

  /** `<temp>/<identifier>_ref_<block>.fa` */
  function RefPath(tempFolder: string, identifier: string, block: int): string
  {
    tempFolder + "/" + identifier + "_ref_" + IntToString(block) + ".fa"
  }

  /** The two files of a block never share a path. */
  lemma PathsDiffer(tempFolder: string, identifier: string, block: int)
    ensures AltLociPath(tempFolder, identifier, block) != RefPath(tempFolder, identifier, block)
  {
    var p := tempFolder + "/" + identifier + "_";
    var tail := IntToString(block) + ".fa";
    assert AltLociPath(tempFolder, identifier, block) == p + "altLoci_" + tail;
    assert RefPath(tempFolder, identifier, block) == p + "ref_" + tail;
    assert (p + "altLoci_" + tail)[|p|] == 'a';
    assert (p + "ref_" + tail)[|p|] == 'r';
  }

  /**
   * writeFilesToDisc: the alt locus bases, then the reference bases, each
   * as a single-record FASTA file named by the identifier, neither in
   * multi-FASTA mode. None stands for the exception a line length of 0
   * raises; it is not caught there.
   */
  function WriteFilesToDisc(files: Files, tempFolder: string, identifier: string, block: int,
                            altLoci: seq<byte>, ref: seq<byte>,
                            singleAltLociFile: bool, lineLength: int): Option<Files>
  {
    match CreateFastaFile(files, AltLociPath(tempFolder, identifier, block), identifier, altLoci,
                          false, singleAltLociFile, lineLength)
    case None => None
    case Some(afterAlt) =>
      CreateFastaFile(afterAlt, RefPath(tempFolder, identifier, block), identifier, ref,
                      false, singleAltLociFile, lineLength)
  }

  /** A second writeFilesToDisc of the same block leaves the files as the first one left them. */
  lemma WriteFilesIdempotent(files: Files, tempFolder: string, identifier: string, block: int,
                             altLoci: seq<byte>, ref: seq<byte>, singleAltLociFile: bool, lineLength: int)
    requires WriteFilesToDisc(files, tempFolder, identifier, block, altLoci, ref, singleAltLociFile, lineLength).Some?
    ensures var once := WriteFilesToDisc(files, tempFolder, identifier, block, altLoci, ref, singleAltLociFile, lineLength).value;
      WriteFilesToDisc(once, tempFolder, identifier, block, altLoci, ref, singleAltLociFile, lineLength) == Some(once)
  {
    var altPath, refPath := AltLociPath(tempFolder, identifier, block), RefPath(tempFolder, identifier, block);
    PathsDiffer(tempFolder, identifier, block);
    var afterAlt := CreateFastaFile(files, altPath, identifier, altLoci, false, singleAltLociFile, lineLength).value;
    var once := CreateFastaFile(afterAlt, refPath, identifier, ref, false, singleAltLociFile, lineLength).value;
    AlignWriteIdempotent(files, altPath, identifier, altLoci, singleAltLociFile, lineLength);
    AlignWriteIdempotent(afterAlt, refPath, identifier, ref, singleAltLociFile, lineLength);
    // The reference write does not touch the alt locus file, so writing the
    // alt locus again finds it as it was left.
    assert altPath in once && once[altPath] == afterAlt[altPath];
    assert CreateFastaFile(once, altPath, identifier, altLoci, false, singleAltLociFile, lineLength) == Some(once) by {
      if !singleAltLociFile {
        var text := FastaText(identifier, altLoci, Abs(lineLength));
        assert afterAlt[altPath] == text;
        assert once[altPath := text] == once;
      }
    }
  }

  /** Some block of the list is short. */
  predicate HasShortBlock(blocks: seq<Tuple>)
  {
    exists i :: 0 <= i < |blocks| && IsShortBlock(blocks[i])
  }

  /**
   * The loop over the N blocks in run: a block longer than 10 bases is only
   * reported, a short one calls writeFilesToDisc. Because the calls write
   * the same two files, the outcome is that of a single call when there is
   * a short block and no change otherwise.
   */
  method EmitShortBlocks(files: Files, blocks: seq<Tuple>, tempFolder: string, identifier: string,
                         block: int, altLoci: seq<byte>, ref: seq<byte>,
                         singleAltLociFile: bool, lineLength: int) returns (r: Option<Files>)
    ensures r == if HasShortBlock(blocks)
                 then WriteFilesToDisc(files, tempFolder, identifier, block, altLoci, ref, singleAltLociFile, lineLength)
                 else Some(files)
  {
    var current := files;
    for i := 0 to |blocks|
      invariant HasShortBlock(blocks[..i]) ==>
        WriteFilesToDisc(files, tempFolder, identifier, block, altLoci, ref, singleAltLociFile, lineLength) == Some(current)
      invariant !HasShortBlock(blocks[..i]) ==> current == files
    {
      assert blocks[..i + 1] == blocks[..i] + [blocks[i]];
      if blocks[i].end - blocks[i].start <= 10 {
        var next := WriteFilesToDisc(current, tempFolder, identifier, block, altLoci, ref, singleAltLociFile, lineLength);
        if HasShortBlock(blocks[..i]) {
          WriteFilesIdempotent(files, tempFolder, identifier, block, altLoci, ref, singleAltLociFile, lineLength);
        }
        if next.None? {
          assert blocks[..i + 1][i] == blocks[i];
          assert !HasShortBlock(blocks[..i]);
          return None;
        }
        current := next.value;
        assert blocks[..i + 1][i] == blocks[i];
      } else {
        assert HasShortBlock(blocks[..i + 1]) ==> HasShortBlock(blocks[..i]);
      }
    }
    assert blocks[..|blocks|] == blocks;
    return Some(current);
  }

  /**
   * One split alignment in run: the N blocks of its alt locus bases are
   * listed and the files are written when some maximal 'N' run is short.
   */
  method ProcessBlock(files: Files, tempFolder: string, identifier: string, block: int,
                      altLoci: seq<byte>, ref: seq<byte>, singleAltLociFile: bool, lineLength: int)
    returns (r: Option<Files>)
    ensures r == if exists t :: IsMaximalRun(altLoci, t, true) && IsShortBlock(t)
                 then WriteFilesToDisc(files, tempFolder, identifier, block, altLoci, ref, singleAltLociFile, lineLength)
                 else Some(files)
  {
    var list := GetNblocks(altLoci);
    ShortBlockIff(altLoci, list);
    r := EmitShortBlocks(files, list, tempFolder, identifier, block, altLoci, ref, singleAltLociFile, lineLength);
  }
}
