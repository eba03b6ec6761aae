# asdpex core in Dafny

A Dafny model of the sequence bookkeeping in asdpex and its predecessor,
hg38altlociselector. These tools prepare alt loci of the GRCh38 human
reference for alignment against their primary-assembly regions. The model
covers these parts, with properties proved about each:

- NCBI GFF alignment records and their `toString` serialisation.
- Sub-alignment extraction, and splitting an alignment at back-to-back large indels.
- Scanning bases for runs of 'N', and the short-gap rule that decides which blocks get FASTA files.
- Building FASTA identifiers and GFF file names.
- Rendering line-wrapped FASTA text, and the skip/append/truncate choices of the writers.
- Parsing the NCBI `alts_accessions` file.
- Assembling an "extended" alt locus: the alt locus bases flanked by the reference bases of its region, in both command variants.

Modules, one concept each:

| file | module | models |
|---|---|---|
| wrappers.dfy | Wrappers | `Option` and `Result` for the Java exceptions of the code |
| text.dfy | Text | `Integer.parseInt` (ASCII digits only), `Integer.toString`, `String.split` (trailing empty fields dropped), `String.replace(char, char)` |
| bases.dfy | Bases | bytes as bases, the byte-to-char conversion of `Writer.write(int)`, the reverse complement (in place on an array, and as a function) |
| gff_alignment.dfy | GffAlignment | `NCBIgffAlignment`: the record, the reference/alt lengths its elements consume, `toString` and its inverse |
| sub_alignment.dfy | AlignSplit | `extractSubAlignment` and `splitupAlignmentAtLargeIndels` of AlignCommand |
| n_blocks.dfy | NBlocks | `getNblocks`, `getNonNblocks` and the at-most-10 rule of AlignCommand.run |
| fasta_file.dfy | FastaFile | the line-wrap loop of both `createFastaFile` methods; their skip/append/truncate decisions on a map of files |
| block_files.dfy | BlockFiles | `writeFilesToDisc` and the per-block loop of AlignCommand.run |
| accession_parser.dfy | AccessionParser | `createBuilderFromLine` and `parse` of AccessionInfoParser |
| identifiers.dfy | Identifiers | `createFastaIdentifier` (all three copies) and `createGffIdentifier` |
| ref_store.dfy | RefStore | the indexed reference as a map from name to bases, `getSubsequenceAt`, AlignCommand.extractSequence |
| extended_sequence.dfy | ExtendedSequence | the flank windows and the extended alt locus of both CreateFastaCommand variants |
| fasta_commands.dfy | FastaCommands | the output targets and run loops of both CreateFastaCommand variants |

Positions follow the code:

- Alignment records and placement windows are 1-based and inclusive.
- `Tuple`s of N blocks are 0-based, with the start included and the end excluded.
- The store fetches `getSubsequenceAt(name, start, stop)`. That is the 1-based inclusive window, and it is empty when `start == stop + 1`.

Each Java exception that ends a call is modelled as `None` or `Err`:

- a lookup in a map that returns `null`, followed by a dereference;
- `subList` with `from > to`;
- `i % 0`;
- a window the store does not hold;
- a duplicate key in `ImmutableMap.Builder`.

The model keeps these behaviours of the code:

- A cut in `splitupAlignmentAtLargeIndels` drops both oversized indels, elements `i-1` and `i`.
- A split without cuts returns `extractSubAlignment(alignment, 0, n)`. For a consistent record that is the record itself (`AlignSplit.SplitWithoutCuts`).
- A cut at the last element makes the split return the input record whole as its last piece.
- Three oversized indels in a row make `subList` throw.
- Both CreateFastaCommand variants take a flank only when its window start is strictly below its stop (see Findings).

## Model

| member | source | states |
|---|---|---|
| Text.ParseInt | asdpex-core/src/main/java/de/charite/compbio/asdpex/io/parser/AccessionInfoParser.java:95 | `Integer.parseInt`: a result lies in the 32-bit range, the text starts with a sign or a digit, and the value is non-positive exactly after a '-' sign, non-negative otherwise |
| Text.ParseIntMeaning | asdpex-core/src/main/java/de/charite/compbio/asdpex/io/parser/AccessionInfoParser.java:95 | `Integer.parseInt` gives a number exactly when the text is an optional '+' or '-' followed by at least one ASCII digit and its value lies in the 32-bit range; the number is the digits' decimal value, negated after '-' |
| Text.ParseIntOfIntToString | asdpex-core/src/main/java/de/charite/compbio/asdpex/io/parser/AccessionInfoParser.java:101 | `toString` then `parseInt` gives back every Java int and rejects every wider value |
| Text.IntToString | hg38altlociselector-cli/src/main/java/de/charite/compbio/hg38altlociselector/cmd/AlignCommand.java:216 | `Integer.toString` of the block number: a non-empty string of decimal digits, led by '-' only for a negative number |
| Text.ReplaceChar | hg38altlociselector-cli/src/main/java/de/charite/compbio/hg38altlociselector/cmd/AlignCommand.java:483 | `replace('.', 'v')`: same length, every `.` becomes `v`, every other char kept |
| Text.JavaSplit | asdpex-core/src/main/java/de/charite/compbio/asdpex/io/parser/AccessionInfoParser.java:85 | `split("\t")`: no field holds a tab; a line without a tab is its only field; with a tab the last field is non-empty (or there are none); the fields, padded with the dropped empty fields, join back to the line |
| Text.JavaSplitTrailingSeparator | asdpex-core/src/main/java/de/charite/compbio/asdpex/io/parser/AccessionInfoParser.java:85 | a tab appended to a non-empty line does not change the fields |
| Text.ParseIntExamples | asdpex-core/src/main/java/de/charite/compbio/asdpex/io/parser/AccessionInfoParser.java:95 | "1a2", "+", "--1" and "" are rejected; "+007" reads as 7 |
| Text.JoinSplitAll | asdpex-core/src/main/java/de/charite/compbio/asdpex/io/parser/AccessionInfoParser.java:85 | joining the pieces of a split with the separator gives back the text |
| Text.SplitAllOfJoin | asdpex-core/src/main/java/de/charite/compbio/asdpex/io/parser/AccessionInfoParser.java:85 | splitting fields joined by a separator they do not contain gives the fields back |
| Bases.ByteChar | hg38altlociselector-cli/src/main/java/de/charite/compbio/hg38altlociselector/cmd/AlignCommand.java:525 | `write(int)` of a byte: below 128 the same code, from 128 up the code plus 0xFF00 (sign extension) |
| Bases.ByteCharInjective | hg38altlociselector-cli/src/main/java/de/charite/compbio/hg38altlociselector/cmd/AlignCommand.java:525 | distinct bytes are written as distinct chars |
| Bases.Complement | hg38altlociselector-cli/src/main/java/de/charite/compbio/hg38altlociselector/cmd/AlignCommand.java:467 | the complement swaps A/T and C/G in both cases, keeps N and every other byte |
| Bases.ComplementInvolutive | hg38altlociselector-cli/src/main/java/de/charite/compbio/hg38altlociselector/cmd/AlignCommand.java:467 | complementing twice gives the byte back |
| Bases.ReverseComplement | hg38altlociselector-cli/src/main/java/de/charite/compbio/hg38altlociselector/cmd/AlignCommand.java:466-467 | the same length; position i holds the complement of position n-1-i |
| Bases.ReverseComplementInvolutive | hg38altlociselector-cli/src/main/java/de/charite/compbio/hg38altlociselector/cmd/AlignCommand.java:466-467 | the reverse complement of the reverse complement is the original |
| Bases.ReverseComplementConcat | hg38altlociselector-cli/src/main/java/de/charite/compbio/hg38altlociselector/cmd/AlignCommand.java:466-467 | the reverse complement of xs + ys is that of ys followed by that of xs |
| Bases.ReverseComplementInPlace | hg38altlociselector-cli/src/main/java/de/charite/compbio/hg38altlociselector/cmd/AlignCommand.java:467 | in place on the array: the new contents are the reverse complement of the old |
| GffAlignment.RefSpanConcat | hg38altlociselector-cli/src/main/java/de/charite/compbio/hg38altlociselector/cmd/AlignCommand.java:378-392 | reference length consumed (MATCH and DELETION) adds up over concatenation |
| GffAlignment.AltSpanConcat | hg38altlociselector-cli/src/main/java/de/charite/compbio/hg38altlociselector/cmd/AlignCommand.java:378-392 | alt length consumed (MATCH and INSERTION) adds up over concatenation |
| GffAlignment.GapConcat | hg38altlociselector-core/src/main/java/de/charite/compbio/hg38altlociselector/data/NCBIgffAlignment.java:83-98 | the Gap text of a concatenation is the concatenation of the Gap texts |
| GffAlignment.GapSpaces | hg38altlociselector-core/src/main/java/de/charite/compbio/hg38altlociselector/data/NCBIgffAlignment.java:97 | the Gap text holds exactly one space per element |
| GffAlignment.ParseGapOfGap | hg38altlociselector-core/src/main/java/de/charite/compbio/hg38altlociselector/data/NCBIgffAlignment.java:83-98 | the Gap text reads back as the element list |
| GffAlignment.ToStringLayout | hg38altlociselector-core/src/main/java/de/charite/compbio/hg38altlociselector/data/NCBIgffAlignment.java:77-82 | split on tabs, toString gives the twelve fields in order: ids, "RefSeq", "macth", positions, "0", strands, ".", "Target=" + altId, strand + ";Gap=" + tokens |
| GffAlignment.ParseToString | hg38altlociselector-core/src/main/java/de/charite/compbio/hg38altlociselector/data/NCBIgffAlignment.java:77-100 | toString loses nothing: the record reads back from its text |
| AlignSplit.BeforeIsSpan | hg38altlociselector-cli/src/main/java/de/charite/compbio/hg38altlociselector/cmd/AlignCommand.java:358-392 | the counters advanced over elements [j, k) differ by what those elements consume |
| AlignSplit.SubAlignmentIsConsistent | hg38altlociselector-cli/src/main/java/de/charite/compbio/hg38altlociselector/cmd/AlignCommand.java:397-399 | a sub-alignment keeps ids and strands, holds exactly `subList(startElem, endElem)` and its windows are as long as its elements consume |
| AlignSplit.SubAlignmentOfAll | hg38altlociselector-cli/src/main/java/de/charite/compbio/hg38altlociselector/cmd/AlignCommand.java:350-399 | extracting all elements of a consistent record gives the record |
| AlignSplit.SubAlignmentsAdjacent | hg38altlociselector-cli/src/main/java/de/charite/compbio/hg38altlociselector/cmd/AlignCommand.java:352-355 | for ranges [x, y) and [y, z): refStop + 1 and altStop + 1 of the first are refStart and altStart of the second |
| AlignSplit.SubAlignmentOfSubAlignment | hg38altlociselector-cli/src/main/java/de/charite/compbio/hg38altlociselector/cmd/AlignCommand.java:350-399 | extracting from an extracted record is extracting from the original at shifted indices |
| AlignSplit.ExtractSubAlignment | hg38altlociselector-cli/src/main/java/de/charite/compbio/hg38altlociselector/cmd/AlignCommand.java:350-400 | the loop returns the sub-alignment exactly when 0 <= startElem <= endElem <= n, and fails otherwise |
| AlignSplit.CounterSignalsCut | hg38altlociselector-cli/src/main/java/de/charite/compbio/hg38altlociselector/cmd/AlignCommand.java:306-314 | the counter exceeds 1 exactly at the second of two back-to-back oversized indels |
| AlignSplit.CutsAreCuts | hg38altlociselector-cli/src/main/java/de/charite/compbio/hg38altlociselector/cmd/AlignCommand.java:306-314 | every listed cut is a cut below k |
| AlignSplit.CutIsListed | hg38altlociselector-cli/src/main/java/de/charite/compbio/hg38altlociselector/cmd/AlignCommand.java:306-314 | every cut below k is listed |
| AlignSplit.CutsAscend | hg38altlociselector-cli/src/main/java/de/charite/compbio/hg38altlociselector/cmd/AlignCommand.java:306-321 | cuts are listed in strictly ascending order |
| AlignSplit.CutRangesSpaced | hg38altlociselector-cli/src/main/java/de/charite/compbio/hg38altlociselector/cmd/AlignCommand.java:314-319 | emitting ranges at the cuts succeeds exactly when consecutive cuts are at least two apart |
| AlignSplit.SplitAtLargeIndels | hg38altlociselector-cli/src/main/java/de/charite/compbio/hg38altlociselector/cmd/AlignCommand.java:297-335 | one piece per cut plus one trailing piece |
| AlignSplit.ScanIsCutRanges | hg38altlociselector-cli/src/main/java/de/charite/compbio/hg38altlociselector/cmd/AlignCommand.java:306-321 | the element-by-element state of the loop equals the ranges computed from the cut list |
| AlignSplit.SplitupAlignmentAtLargeIndels | hg38altlociselector-cli/src/main/java/de/charite/compbio/hg38altlociselector/cmd/AlignCommand.java:297-335 | the loop returns what SplitAtLargeIndels defines; a result is never empty |
| AlignSplit.SplitFailsIffTriple | hg38altlociselector-cli/src/main/java/de/charite/compbio/hg38altlociselector/cmd/AlignCommand.java:318 | the split throws exactly when three oversized indels follow each other |
| AlignSplit.SplitPieces | hg38altlociselector-cli/src/main/java/de/charite/compbio/hg38altlociselector/cmd/AlignCommand.java:314-330 | piece j covers elements from just after the previous cut to before the element preceding cut j; the last piece runs from after the last cut to the end, or is the input record |
| AlignSplit.SplitWithoutCuts | hg38altlociselector-cli/src/main/java/de/charite/compbio/hg38altlociselector/cmd/AlignCommand.java:327-330 | without a cut the split gives the single sub-alignment of all elements (the record itself when consistent) |
| AlignSplit.SplitDropsIndelPair | hg38altlociselector-cli/src/main/java/de/charite/compbio/hg38altlociselector/cmd/AlignCommand.java:306-330 | M100 I6000 D6000 M50 gives two pieces, M100 and M50, with their windows; both indels are dropped |
| AlignSplit.SplitAtLastCut | hg38altlociselector-cli/src/main/java/de/charite/compbio/hg38altlociselector/cmd/AlignCommand.java:318-335 | when the only cut is the last element, the split gives the elements before the indel pair and then the input record whole |
| AlignSplit.SplitAtTrailingPair | hg38altlociselector-cli/src/main/java/de/charite/compbio/hg38altlociselector/cmd/AlignCommand.java:327-330 | a cut at the final element makes the input record itself the last piece |
| AlignSplit.SplitFailsOnTriple | hg38altlociselector-cli/src/main/java/de/charite/compbio/hg38altlociselector/cmd/AlignCommand.java:318 | three oversized indels in a row make the split fail |
| NBlocks.GetNblocks | hg38altlociselector-cli/src/main/java/de/charite/compbio/hg38altlociselector/cmd/AlignCommand.java:432-451 | the list holds exactly the maximal runs of 'N', ascending and separated, each as [start, end) |
| NBlocks.GetNonNblocks | hg38altlociselector-cli/src/main/java/de/charite/compbio/hg38altlociselector/cmd/AlignCommand.java:408-422 | the list holds the maximal non-N stretches and then the trailing stretch from after the last N to the end, even when empty |
| NBlocks.NoBlocksIffNoN | hg38altlociselector-cli/src/main/java/de/charite/compbio/hg38altlociselector/cmd/AlignCommand.java:432-451 | no N block exactly when no byte is 'N' |
| NBlocks.AllNIsOneBlock | hg38altlociselector-cli/src/main/java/de/charite/compbio/hg38altlociselector/cmd/AlignCommand.java:432-451 | bases that are all 'N' form a single block [0, n) |
| NBlocks.NonNTrailingEmpty | hg38altlociselector-cli/src/main/java/de/charite/compbio/hg38altlociselector/cmd/AlignCommand.java:420 | the last stretch of getNonNblocks is empty exactly when the bases are empty or end in 'N' |
| NBlocks.SameRun | hg38altlociselector-cli/src/main/java/de/charite/compbio/hg38altlociselector/cmd/AlignCommand.java:432-451 | two maximal runs sharing a position are the same run |
| NBlocks.MaximalRunListed | hg38altlociselector-cli/src/main/java/de/charite/compbio/hg38altlociselector/cmd/AlignCommand.java:432-451 | every maximal N run of the bases is in the list |
| NBlocks.ShortBlockIff | hg38altlociselector-cli/src/main/java/de/charite/compbio/hg38altlociselector/cmd/AlignCommand.java:139-145 | the list has a block with end - start <= 10 exactly when the bases have a maximal N run of at most 10 |
| FastaFile.ModAbs | hg38altlociselector-cli/src/main/java/de/charite/compbio/hg38altlociselector/cmd/AlignCommand.java:523 | Java's `%` (`JavaRem`, truncating, with the sign of the dividend) agrees for i >= 0 with the Euclidean remainder by lineLength and by abs(lineLength), so the loop's newline test depends only on abs(lineLength) |
| FastaFile.WrappedSnoc | hg38altlociselector-cli/src/main/java/de/charite/compbio/hg38altlociselector/cmd/AlignCommand.java:522-526 | one more base gets a newline before it exactly when the bases so far fill whole lines |
| FastaFile.RenderFasta | hg38altlociselector-cli/src/main/java/de/charite/compbio/hg38altlociselector/cmd/AlignCommand.java:518-528 | the loop writes ">" + name + "\n", the bases wrapped at abs(lineLength), "\n"; it fails exactly for lineLength 0 and more than one base |
| FastaFile.UnwrapWrapped | hg38altlociselector-cli/src/main/java/de/charite/compbio/hg38altlociselector/CreateFastaCommand.java:192-196 | deleting the inserted newlines from the body gives back the bases as written |
| FastaFile.WrappedLines | hg38altlociselector-cli/src/main/java/de/charite/compbio/hg38altlociselector/CreateFastaCommand.java:192-196 | every body line but the last holds exactly lineLength bases; the last holds at most that, and is empty only for no bases |
| FastaFile.AlignWriteMode | hg38altlociselector-cli/src/main/java/de/charite/compbio/hg38altlociselector/cmd/AlignCommand.java:507-517 | AlignCommand skips an existing file only when singleAltLociFile is set; it appends in multi-FASTA mode and truncates otherwise |
| FastaFile.Hg38WriteMode | hg38altlociselector-cli/src/main/java/de/charite/compbio/hg38altlociselector/CreateFastaCommand.java:182-185 | the hg38 writer skips exactly when the file exists and never appends |
| FastaFile.Hg38WriteEffect | hg38altlociselector-cli/src/main/java/de/charite/compbio/hg38altlociselector/CreateFastaCommand.java:180-199 | an existing file is unchanged; otherwise the new file holds exactly the record, and no other file changes |
| FastaFile.Hg38WriteIdempotent | hg38altlociselector-cli/src/main/java/de/charite/compbio/hg38altlociselector/CreateFastaCommand.java:182-185 | writing the same record twice equals writing it once |
| FastaFile.AlignWriteIdempotent | hg38altlociselector-cli/src/main/java/de/charite/compbio/hg38altlociselector/cmd/AlignCommand.java:507-517 | without multi-FASTA, writing the same record twice equals writing it once |
| FastaFile.AlignAppendEffect | hg38altlociselector-cli/src/main/java/de/charite/compbio/hg38altlociselector/cmd/AlignCommand.java:514-515 | in multi-FASTA mode the record is added after the file's old content |
| BlockFiles.PathsDiffer | hg38altlociselector-cli/src/main/java/de/charite/compbio/hg38altlociselector/cmd/AlignCommand.java:216 | the alt locus and reference files of a block never share a path |
| BlockFiles.WriteFilesIdempotent | hg38altlociselector-cli/src/main/java/de/charite/compbio/hg38altlociselector/cmd/AlignCommand.java:212-228 | calling writeFilesToDisc twice for a block leaves the files as one call does |
| BlockFiles.EmitShortBlocks | hg38altlociselector-cli/src/main/java/de/charite/compbio/hg38altlociselector/cmd/AlignCommand.java:139-146 | the loop over the blocks leaves the files as one writeFilesToDisc call when some block is short; otherwise unchanged |
| BlockFiles.ProcessBlock | hg38altlociselector-cli/src/main/java/de/charite/compbio/hg38altlociselector/cmd/AlignCommand.java:137-146 | files are written exactly when the alt locus bases have a maximal 'N' run of at most 10 |
| AccessionParser.CreateBuilderFromLine | asdpex-core/src/main/java/de/charite/compbio/asdpex/io/parser/AccessionInfoParser.java:83-107 | a record exactly when there are 5 fields and both gi fields parse; a field-count error exactly when the count is not 5; fields 0 to 4 map to chromosome, RefSeq acc, RefSeq gi, GenBank acc, GenBank gi |
| AccessionParser.ParseFormatLine | asdpex-core/src/main/java/de/charite/compbio/asdpex/io/parser/AccessionInfoParser.java:85-104 | a record written as a tab-separated line reads back as itself |
| AccessionParser.TrailingTabIgnored | asdpex-core/src/main/java/de/charite/compbio/asdpex/io/parser/AccessionInfoParser.java:85 | a trailing tab does not change how a line parses |
| AccessionParser.AcceptedConcat | asdpex-core/src/main/java/de/charite/compbio/asdpex/io/parser/AccessionInfoParser.java:64-74 | the records of two blocks of lines are the records of each block, in order |
| AccessionParser.AcceptedFromLines | asdpex-core/src/main/java/de/charite/compbio/asdpex/io/parser/AccessionInfoParser.java:66-70 | every record comes from a non-comment line that parses to it |
| AccessionParser.BuildMap | asdpex-core/src/main/java/de/charite/compbio/asdpex/io/parser/AccessionInfoParser.java:80 | the built map's keys are exactly the records' RefSeq accession.versions |
| AccessionParser.BuildMapSucceeds | asdpex-core/src/main/java/de/charite/compbio/asdpex/io/parser/AccessionInfoParser.java:70 | build succeeds exactly when no two records share a key |
| AccessionParser.BuildMapLookup | asdpex-core/src/main/java/de/charite/compbio/asdpex/io/parser/AccessionInfoParser.java:70 | after a successful build each record is found under its key |
| AccessionParser.Parse | asdpex-core/src/main/java/de/charite/compbio/asdpex/io/parser/AccessionInfoParser.java:57-81 | the loop skips comment lines and lines that fail, keeps the rest in order, and builds the map from them |
| Identifiers.FastaIdentifier | hg38altlociselector-cli/src/main/java/de/charite/compbio/hg38altlociselector/cmd/AlignCommand.java:480-485 | the identifier is 8 chars longer than chromosome and GenBank accession together |
| Identifiers.FastaIdentifierShape | asdpex-cli/src/main/java/de/charite/compbio/asdpex/cmd/CreateFastaCommand.java:179-184 | "chr" + chromosome + "_", then the accession with '.' turned into 'v' (no '.' left), then "_alt" |
| Identifiers.FastaIdentifierEqual | hg38altlociselector-cli/src/main/java/de/charite/compbio/hg38altlociselector/CreateFastaCommand.java:171-176 | on one chromosome, two records share an identifier exactly when their accessions agree after '.' becomes 'v' |
| Identifiers.FastaIdentifierExample | hg38altlociselector-cli/src/main/java/de/charite/compbio/hg38altlociselector/cmd/AlignCommand.java:473-475 | chromosome 21, GL383580.2 gives chr21_GL383580v2_alt |
| Identifiers.GffIdentifier | hg38altlociselector-cli/src/main/java/de/charite/compbio/hg38altlociselector/cmd/AlignCommand.java:487-491 | the name is the two accessions plus five chars ("_" and ".gff") |
| Identifiers.GffIdentifierInjective | hg38altlociselector-cli/src/main/java/de/charite/compbio/hg38altlociselector/cmd/AlignCommand.java:487-491 | when the alt scaffold accession holds no '_', the file name determines both accessions |
| RefStore.Fetch | asdpex-cli/src/main/java/de/charite/compbio/asdpex/cmd/CreateFastaCommand.java:120-121 | `getSubsequenceAt` gives the bases at positions start..stop (1-based, inclusive), stop - start + 1 of them; it fails outside the sequence |
| RefStore.FetchSplit | asdpex-cli/src/main/java/de/charite/compbio/asdpex/cmd/CreateFastaCommand.java:159-160 | fetching a window in two adjacent parts gives the window |
| RefStore.ExtractSequence | hg38altlociselector-cli/src/main/java/de/charite/compbio/hg38altlociselector/cmd/AlignCommand.java:463-470 | extractSequence returns the fetched window, reverse complemented in place on the minus strand |
| RefStore.OrientedMinusPlus | hg38altlociselector-cli/src/main/java/de/charite/compbio/hg38altlociselector/cmd/AlignCommand.java:466-467 | reverse complementing the minus-strand extract gives the plus-strand bases |
| ExtendedSequence.Extended | asdpex-cli/src/main/java/de/charite/compbio/asdpex/cmd/CreateFastaCommand.java:115-141 | the assembly fails exactly when a taken flank window or the alt locus window is not in the store |
| ExtendedSequence.ExtendedLength | asdpex-cli/src/main/java/de/charite/compbio/asdpex/cmd/CreateFastaCommand.java:119-141 | the length is the sum of the taken flank widths and altStop - altStart + 1 |
| ExtendedSequence.VariantsDifferOnlyInCore | hg38altlociselector-cli/src/main/java/de/charite/compbio/hg38altlociselector/CreateFastaCommand.java:139-140 | the hg38 and asdpex assemblies fail together, are equal on the plus strand, and otherwise differ only in the alt locus part, which is reverse complemented |
| ExtendedSequence.ExtendedIsSubstitutionIff | asdpex-cli/src/main/java/de/charite/compbio/asdpex/cmd/CreateFastaCommand.java:119-141 | for a placement inside its region, the result is the region with the placement replaced by the alt locus exactly when neither flank window is one base |
| ExtendedSequence.OneBaseFlanksExample | asdpex-cli/src/main/java/de/charite/compbio/asdpex/cmd/CreateFastaCommand.java:119 | region ACGTA with placement 2..4 and alt locus GGG assembles to GGG, not AGGGA |
| ExtendedSequence.InclusiveIsSubstitution | asdpex-cli/src/main/java/de/charite/compbio/asdpex/cmd/CreateFastaCommand.java:99-113 | with flanks taken when start <= stop, the result is always the region with the placement replaced by the alt locus |
| ExtendedSequence.AssembleAsdpex | asdpex-cli/src/main/java/de/charite/compbio/asdpex/cmd/CreateFastaCommand.java:115-141 | the buffer built step by step is the asdpex assembly: 5' flank, alt locus (reverse complemented in place when the strand is false), 3' flank |
| ExtendedSequence.AssembleHg38 | hg38altlociselector-cli/src/main/java/de/charite/compbio/hg38altlociselector/CreateFastaCommand.java:126-148 | the buffer built step by step is the hg38 assembly: 5' flank, alt locus as fetched, 3' flank |
| FastaCommands.AsdpexAltTarget | asdpex-cli/src/main/java/de/charite/compbio/asdpex/cmd/CreateFastaCommand.java:146-152 | the alt locus file is appended to exactly when not in single-file mode |
| FastaCommands.AsdpexRegionTarget | asdpex-cli/src/main/java/de/charite/compbio/asdpex/cmd/CreateFastaCommand.java:162-164 | the region file is written without appending |
| FastaCommands.SingleTargetsSeparate | asdpex-cli/src/main/java/de/charite/compbio/asdpex/cmd/CreateFastaCommand.java:147-149 | in single-file mode two alt loci share a file exactly when they share an identifier |
| FastaCommands.RegionTargetsShared | asdpex-cli/src/main/java/de/charite/compbio/asdpex/cmd/CreateFastaCommand.java:151-152 | otherwise two alt loci share a file exactly when they share a region |
| FastaCommands.AltAndRegionTargetsDiffer | asdpex-cli/src/main/java/de/charite/compbio/asdpex/cmd/CreateFastaCommand.java:146-164 | an alt locus file is never a region file |
| FastaCommands.AsdpexAltRecord | asdpex-cli/src/main/java/de/charite/compbio/asdpex/cmd/CreateFastaCommand.java:146-152 | the alt locus record is appended exactly when not in single-file mode |
| FastaCommands.AsdpexRecords | asdpex-cli/src/main/java/de/charite/compbio/asdpex/cmd/CreateFastaCommand.java:145-167 | an available placement writes two records to different files, the region one not appended |
| FastaCommands.AsdpexScaffold | asdpex-cli/src/main/java/de/charite/compbio/asdpex/cmd/CreateFastaCommand.java:92-167 | a placement completes exactly when its record, region and windows are there; a region fetch failure comes after the alt locus record is written |
| FastaCommands.AsdpexRun | asdpex-cli/src/main/java/de/charite/compbio/asdpex/cmd/CreateFastaCommand.java:91-168 | the run completes exactly when every placement is available; it then writes two records per placement, in order |
| FastaCommands.Hg38PathsDiffer | hg38altlociselector-cli/src/main/java/de/charite/compbio/hg38altlociselector/CreateFastaCommand.java:152-163 | the alt locus and region files of the hg38 command never share a path |
| FastaCommands.Hg38Step | hg38altlociselector-cli/src/main/java/de/charite/compbio/hg38altlociselector/CreateFastaCommand.java:98-168 | one placement never changes an existing file and creates no file but its alt locus and region files; a completed step had its inputs, leaves both files in place, and a file it created holds exactly that record wrapped at abs(lineLength); a missing record or region leaves the files as they were |
| FastaCommands.Hg38StepSkips | hg38altlociselector-cli/src/main/java/de/charite/compbio/hg38altlociselector/CreateFastaCommand.java:182-185 | a placement whose two files exist changes nothing, whatever the line length |
| FastaCommands.Hg38Scaffold | hg38altlociselector-cli/src/main/java/de/charite/compbio/hg38altlociselector/CreateFastaCommand.java:98-168 | the statements of one loop iteration compute Hg38Step |
| FastaCommands.Hg38Run | hg38altlociselector-cli/src/main/java/de/charite/compbio/hg38altlociselector/CreateFastaCommand.java:98-168 | the loop stops at the first exception and computes Hg38RunFrom |
| FastaCommands.Hg38RunKeepsFiles | hg38altlociselector-cli/src/main/java/de/charite/compbio/hg38altlociselector/CreateFastaCommand.java:182-185 | a file that existed before the run keeps its content |
| FastaCommands.Hg38RunWritesAll | hg38altlociselector-cli/src/main/java/de/charite/compbio/hg38altlociselector/CreateFastaCommand.java:151-167 | after a completed run every placement's alt locus and region files exist |
| FastaCommands.Hg38RunSkipsWritten | hg38altlociselector-cli/src/main/java/de/charite/compbio/hg38altlociselector/CreateFastaCommand.java:182-185 | a run over placements whose files all exist leaves the files unchanged |
| FastaCommands.Hg38RunIdempotent | hg38altlociselector-cli/src/main/java/de/charite/compbio/hg38altlociselector/CreateFastaCommand.java:98-185 | running the hg38 command again on what a completed run left changes nothing |

## Findings

| source | as written | input that shows it | evidently intended | confidence | as-written member | corrected member |
|---|---|---|---|---|---|---|
| asdpex-cli/src/main/java/de/charite/compbio/asdpex/cmd/CreateFastaCommand.java:119 | a flank is taken only when `start < stop` (also at line 137, and at lines 130 and 144 of the hg38 CreateFastaCommand.java) | region 1..5 of chr1 holding ACGTA, placement 2..4, alt locus GGG: both flank windows are one base, and the result is GGG, not AGGGA | the windows are inclusive (the comments at lines 100-112 say so), so a flank holds bases when `start <= stop`, and the extended alt locus is the region with the placement replaced | medium, not executed | ExtendedSequence.ExtendedIsSubstitutionIff | ExtendedSequence.InclusiveIsSubstitution |

The two assembly methods, and the run loops built on them, keep the strict
test. They model the commands as they behave. `ExtendedSequence.ExtendedInclusive`
is the corrected definition, and `ExtendedSequence.OneBaseFlanksExample` is
the concrete input.

## Left out

- I/O: opening, reading and closing files, `mkdirs`, `isIndexed` and `System.exit` are not modelled. Files are a map from path to content. The reference store is a map from sequence name to bases. Lines of the accession file are a given sequence.
- A caught IOException (the `catch` blocks of both CreateFastaCommand variants, writeFilesToDisc, parse) is not modelled: with files as a map, no write fails.
- Console output is left out: progress ticks with floating-point percentages, diagnostics, and stack traces.
- The hard-coded filter on `chr11_KI270831v1_alt` in AlignCommand.run is left out.
- Collaborators whose code is not part of this model are taken as given records: AlternativeLociBuilder, NCBIgffAlignmentParser, AltScaffoldPlacementParser, RegionInfoParser, AccessionInfoBuilder.build, and asdpex FastaFileWriter. For asdpex, the model records each call to FastaFileWriter with its target and append flag, but not what the call writes.
- `ImmutableMap.values()` iteration order is taken to be the order of the placement sequence passed to the run loops.
- `splitupAlignmentAtNstrech` and `createMatchesFile` are left out: their calls are commented out.
- Command-line parsing is left out.
- The reverse complement uses its own definition (A/T, C/G in both cases, anything else unchanged); htsjdk's `SequenceUtil.reverseComplement` is not part of this model.
- RefStore.Fetch: the store's behaviour is assumed. A window from start >= 1 to stop <= length is served; start == stop + 1 gives no bases; anything else throws.
- FastaFile.CreateFastaFile and FastaFile.CreateFastaFileHg38: a line length of 0 with more than one base throws inside the write loop. The file was opened by then, and the header and first base sit in the writer's buffer, which is never flushed or closed. So the file on disk is left created or truncated, most likely empty. The model returns failure and leaves the files unchanged. It therefore misses two effects: AlignCommand's non-append mode truncating an existing file, and the hg38 writer leaving an empty file that a later run skips as already written.
- FastaCommands.Hg38Step: for the same reason, a step that fails in a write does not record the empty file that write leaves on disk.
- FastaCommands.AsdpexRun: for a run that stops early, the contract says only that it stopped, not which records were written before it.
- Java int overflow is not modelled. Integers are unbounded: the position sums of extractSubAlignment, `parentStart - 1`, `parentStop + 1` and the loop counters cannot wrap. Integer.parseInt's 32-bit range and `toString` are modelled.
- Text.ParseInt: accepts only the ASCII digits '0' to '9'. Java's `Character.digit` also accepts other Unicode decimal digits (Arabic-Indic, fullwidth and others), so a gi field written with those parses in Java but is a dropped line in the model.
- The `block` counter of AlignCommand.run is a parameter of BlockFiles.ProcessBlock; the loops that feed it alignments, and split pieces whose bases come from the store, are not modelled.
