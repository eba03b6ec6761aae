/**
 * The names the commands derive from records: the FASTA identifier of an
 * alt locus as the reference FASTA files use it, and the name of the GFF
 * alignment file of an alt scaffold.
 */
module Identifiers {
  import opened Text
  import opened AccessionParser

  /**
   * createFastaIdentifier (identical in AlignCommand and both
   * CreateFastaCommand variants): chr<chromosome>_<GenBank
   * accession.version with every '.' turned into 'v'>_alt.
   */
  function FastaIdentifier(info: AccessionInfo): (id: string)
    ensures |id| == |info.chromosome| + |info.genbankAccessionVersion| + 8
  {
    "chr" + info.chromosome + "_" + ReplaceChar(info.genbankAccessionVersion, '.', 'v') + "_alt"
  }

  /** The accession part of an identifier, between the chromosome and "_alt". */
  function AccessionPart(id: string, chromosome: string): string
    requires |id| >= |chromosome| + 8
  {
    id[|chromosome| + 4..|id| - 4]
  }

  /**
   * The identifier starts with "chr", the chromosome and "_", ends with
   * "_alt", and in between holds the accession with no '.' left and every
   * other character kept.
   */
  lemma FastaIdentifierShape(info: AccessionInfo)
    ensures var id := FastaIdentifier(info);
      && id[..|info.chromosome| + 4] == "chr" + info.chromosome + "_"
      && id[|id| - 4..] == "_alt"
      && AccessionPart(id, info.chromosome) == ReplaceChar(info.genbankAccessionVersion, '.', 'v')
      && '.' !in AccessionPart(id, info.chromosome)
  {
    var p := "chr" + info.chromosome + "_";
    var acc := ReplaceChar(info.genbankAccessionVersion, '.', 'v');
    var id := FastaIdentifier(info);
    assert id == p + acc + "_alt";
    assert id[..|p|] == p;
    assert id[|p|..|id| - 4] == acc;
    assert id[|id| - 4..] == "_alt";
  }

  /**
   * For one chromosome two records give the same identifier exactly when
   * their accessions agree once '.' is read as 'v'.
   */
  lemma FastaIdentifierEqual(a: AccessionInfo, b: AccessionInfo)
    requires a.chromosome == b.chromosome
    ensures FastaIdentifier(a) == FastaIdentifier(b) <==>
      ReplaceChar(a.genbankAccessionVersion, '.', 'v') == ReplaceChar(b.genbankAccessionVersion, '.', 'v')
  {
    FastaIdentifierShape(a);
    FastaIdentifierShape(b);
  }

  /** The identifier of the alt locus GL383580.2 on chromosome 21. */
  lemma FastaIdentifierExample(refseq: string, refseqGi: int, genbankGi: int)
    ensures FastaIdentifier(AccessionInfo("21", refseq, refseqGi, "GL383580.2", genbankGi)) == "chr21_GL383580v2_alt"
  {
    var acc := ReplaceChar("GL383580.2", '.', 'v');
    assert acc == "GL383580v2";
  }

  /** createGffIdentifier: <altScafAcc>_<parentAcc>.gff */
  function GffIdentifier(altScafAcc: string, parentAcc: string): (name: string)
    ensures |name| == |altScafAcc| + |parentAcc| + 5
  {
    altScafAcc + "_" + parentAcc + ".gff"
  }

  /**
   * When the alt scaffold accession holds no '_', the file name determines
   * both accessions: the first '_' ends the alt scaffold accession.
   */
  lemma GffIdentifierInjective(alt1: string, parent1: string, alt2: string, parent2: string)
    requires '_' !in alt1 && '_' !in alt2
    requires GffIdentifier(alt1, parent1) == GffIdentifier(alt2, parent2)
    ensures alt1 == alt2 && parent1 == parent2
  {
    var name := GffIdentifier(alt1, parent1);
    IndexOfAfterPrefix(alt1, '_', parent1 + ".gff");
    IndexOfAfterPrefix(alt2, '_', parent2 + ".gff");
    assert name == alt1 + ['_'] + (parent1 + ".gff");
    assert name == alt2 + ['_'] + (parent2 + ".gff");
    assert |alt1| == |alt2|;
    assert alt1 == name[..|alt1|] == alt2;
    assert parent1 == name[|alt1| + 1..|name| - 4] == parent2;
  }
}
