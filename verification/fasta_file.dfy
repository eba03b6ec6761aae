/**
 * FASTA output as both createFastaFile variants write it: a header line
 * ">" + name, the bases wrapped at the configured line length, a final
 * newline; plus the decision whether an existing file is skipped,
 * truncated or appended to. Files are a map from path to content.
 */
module FastaFile {
  import opened Wrappers
  import opened Text
  import opened Bases

  function Abs(x: int): nat
  {
    if x < 0 then -x else x
  }

  /**
   * The bases as lines of `width` chars, the last one holding the rest,
   * joined by newlines. A width of 0 is only usable for at most one base.
   */
  function Wrapped(bs: seq<byte>, width: nat): string
    requires width > 0 || |bs| <= 1
    decreases |bs|
  {
    if width == 0 || |bs| <= width then Chars(bs)
    else Chars(bs[..width]) + "\n" + Wrapped(bs[width..], width)
  }

  /** The whole text of a FASTA file with one record. */
  function FastaText(name: string, bs: seq<byte>, width: nat): string
    requires width > 0 || |bs| <= 1
  {
    ">" + name + "\n" + Wrapped(bs, width) + "\n"
  }

  lemma CharsConcat(xs: seq<byte>, ys: seq<byte>)
    ensures Chars(xs + ys) == Chars(xs) + Chars(ys)
  {
  }

  lemma MulPos(w: int, d: int)
    requires w > 0
    ensures d >= 1 ==> w * d >= w
    ensures d <= -1 ==> w * d <= -w
  {
  }

  /** The remainder is the only r in [0, w) with a == w * q + r. */
  lemma ModUnique(a: int, w: int, q: int, r: int)
    requires w > 0 && a == w * q + r && 0 <= r < w
    ensures a % w == r
  {
    var q', r' := a / w, a % w;
    var d := q - q';
    assert w * q - w * q' == w * d;
    MulPos(w, d);
  }

  /** Adding the divisor does not change the remainder. */
  lemma ModShift(n: nat, w: nat)
    requires w > 0
    ensures (n + w) % w == n % w
  {
    ModUnique(n + w, w, n / w + 1, n % w);
  }

  lemma ModSmall(n: nat, w: nat)
    requires n < w
    ensures n % w == n
  {
    ModUnique(n, w, 0, n);
  }

  /** Java's `/` on ints: the quotient truncated toward zero. */
  function JavaDiv(a: int, b: int): int
    requires b != 0
  {
    if (a < 0) == (b < 0) then Abs(a) / Abs(b) else -(Abs(a) / Abs(b))
  }

  /** Java's `%` on ints: `a - (a / b) * b`, so the remainder takes the sign of the dividend. */
  function JavaRem(a: int, b: int): int
    requires b != 0
  {
    a - JavaDiv(a, b) * b
  }

  /**
   * The `i % lineLength` of the loop: for i >= 0 Java's truncating
   * remainder equals Dafny's Euclidean one, and both equal the remainder
   * by abs(lineLength), so a negative line length wraps like its absolute
   * value.
   */
  lemma ModAbs(i: nat, lineLength: int)
    requires lineLength != 0
    ensures JavaRem(i, lineLength) == i % lineLength == i % Abs(lineLength)
  {
    var q := i / Abs(lineLength);
    if lineLength < 0 {
      ModUnique(i, -lineLength, -(i / lineLength), i % lineLength);
      assert JavaDiv(i, lineLength) * lineLength == q * Abs(lineLength) by {
        assert JavaDiv(i, lineLength) == -q;
      }
    } else {
      assert JavaDiv(i, lineLength) == q;
    }
  }

  /**
   * Wrapping one more base: a newline goes in front of it exactly when
   * the bases so far fill a whole number of lines.
   */
  lemma {:induction false} WrappedSnoc(bs: seq<byte>, b: byte, width: nat)
    requires width > 0
    ensures Wrapped(bs + [b], width)
         == Wrapped(bs, width) + (if |bs| > 0 && |bs| % width == 0 then "\n" else "") + [ByteChar(b)]
    decreases |bs|
  {
    var s := bs + [b];
    if |bs| < width {
      CharsConcat(bs, [b]);
      ModSmall(|bs|, width);
    } else if |bs| == width {
      assert s[..width] == bs && s[width..] == [b];
      ModShift(0, width);
    } else {
      var rest := bs[width..];
      assert s[..width] == bs[..width] && s[width..] == rest + [b];
      WrappedSnoc(rest, b, width);
      ModShift(|rest|, width);
    }
  }

  /** The loop step of RenderFasta: base i, preceded by a newline where a line is full. */
  lemma WrappedStep(bs: seq<byte>, i: nat, lineLength: int)
    requires i < |bs| && (lineLength != 0 || i == 0)
    ensures Wrapped(bs[..i + 1], Abs(lineLength))
         == Wrapped(bs[..i], Abs(lineLength)) + ((if i > 0 && JavaRem(i, lineLength) == 0 then "\n" else "") + [ByteChar(bs[i])])
  {
    assert bs[..i + 1] == bs[..i] + [bs[i]];
    if i == 0 {
      assert Wrapped(bs[..1], Abs(lineLength)) == Chars(bs[..1]);
    } else {
      WrappedSnoc(bs[..i], bs[i], Abs(lineLength));
      ModAbs(i, lineLength);
    }
  }

  /** One more base of the loop: the text grows by the newline, if due, and the base. */
  lemma RenderStep(header: string, bs: seq<byte>, i: nat, lineLength: int)
    requires i < |bs| && (lineLength != 0 || i == 0)
    ensures header + Wrapped(bs[..i + 1], Abs(lineLength))
         == header + Wrapped(bs[..i], Abs(lineLength))
            + ((if i > 0 && JavaRem(i, lineLength) == 0 then "\n" else "") + [ByteChar(bs[i])])
  {
    WrappedStep(bs, i, lineLength);
  }

  /**
   * Renders a record as createFastaFile writes it: the header, then each
   * base, with a newline before every index i > 0 that is a multiple of
   * the line length, then a final newline. `i % 0` throws in Java, so a
   * line length of 0 fails as soon as a second base is reached; a negative
   * line length wraps like its absolute value.
   */
  method RenderFasta(name: string, bases: seq<byte>, lineLength: int) returns (r: Option<string>)
    ensures r.None? <==> lineLength == 0 && |bases| > 1
    ensures r.Some? ==> r.value == FastaText(name, bases, Abs(lineLength))
  {
    var header := ">" + name + "\n";
    var out := header;
    var i := 0;
    while i < |bases|
      invariant 0 <= i <= |bases|
      invariant lineLength == 0 ==> i <= 1
      invariant out == header + Wrapped(bases[..i], Abs(lineLength))
    {
      if i > 0 && lineLength == 0 {
        return None;
      }
      var piece := [ByteChar(bases[i])];
      if i > 0 && JavaRem(i, lineLength) == 0 {
        piece := "\n" + piece;
      }
      RenderStep(header, bases, i, lineLength);
      out := out + piece;
      i := i + 1;
    }
    assert bases[..i] == bases;
    return Some(out + "\n");
  }

  // ---------------------------------------------------------------------
  // What the wrapped body promises

  /** The text with every newline deleted. */
  function RemoveNewlines(s: string): (r: string)
    ensures |r| <= |s|
    ensures '\n' !in r
  {
    if |s| == 0 then ""
    else (if s[0] == '\n' then "" else [s[0]]) + RemoveNewlines(s[1..])
  }

  lemma {:induction false} RemoveNewlinesConcat(x: string, y: string)
    ensures RemoveNewlines(x + y) == RemoveNewlines(x) + RemoveNewlines(y)
    decreases |x|
  {
    if |x| > 0 {
      assert (x + y)[1..] == x[1..] + y;
      RemoveNewlinesConcat(x[1..], y);
    } else {
      assert x + y == y;
    }
  }

  /** A string without newlines is left as it is. */
  lemma {:induction false} RemoveNewlinesNone(x: string)
    requires '\n' !in x
    ensures RemoveNewlines(x) == x
    decreases |x|
  {
    if |x| > 0 {
      assert '\n' !in x[1..];
      RemoveNewlinesNone(x[1..]);
    }
  }

  /** One newline between two pieces, the first without newlines, disappears. */
  lemma RemoveNewlinesAround(x: string, y: string)
    requires '\n' !in x
    ensures RemoveNewlines(x + "\n" + y) == x + RemoveNewlines(y)
  {
    var z := "\n" + y;
    assert x + "\n" + y == x + z;
    assert z[0] == '\n' && z[1..] == y;
    assert RemoveNewlines(z) == RemoveNewlines(y);
    RemoveNewlinesConcat(x, z);
    RemoveNewlinesNone(x);
  }

  /** Bases without the newline byte give chars without newlines. */
  lemma NoNewlineChars(bs: seq<byte>)
    requires NewLine !in bs
    ensures '\n' !in Chars(bs)
  {
    forall k | 0 <= k < |bs|
      ensures Chars(bs)[k] != '\n'
    {
      assert bs[k] in bs;
    }
  }

  /** Deleting the inserted newlines gives back the bases. */
  lemma {:induction false} UnwrapWrapped(bs: seq<byte>, width: nat)
    requires width > 0 || |bs| <= 1
    requires NewLine !in bs
    ensures RemoveNewlines(Wrapped(bs, width)) == Chars(bs)
    decreases |bs|
  {
    if width == 0 || |bs| <= width {
      NoNewlineChars(bs);
      RemoveNewlinesNone(Chars(bs));
    } else {
      var head, rest := bs[..width], bs[width..];
      assert head + rest == bs;
      NoNewlineChars(head);
      UnwrapWrapped(rest, width);
      RemoveNewlinesAround(Chars(head), Wrapped(rest, width));
      CharsConcat(head, rest);
    }
  }

  /**
   * Lines as split at newlines: all but the last hold exactly `width`
   * chars, the last holds at most `width` and is empty only for no bases.
   */
  predicate FullLines(lines: seq<string>, width: nat, empty: bool)
  {
    && |lines| > 0
    && (forall k :: 0 <= k < |lines| - 1 ==> |lines[k]| == width)
    && |lines[|lines| - 1]| <= width
    && (|lines[|lines| - 1]| == 0 <==> empty)
  }

  /** Every body line except the last has exactly the line length. */
  lemma {:induction false} WrappedLines(bs: seq<byte>, width: nat)
    requires width > 0
    requires NewLine !in bs
    ensures FullLines(SplitAll(Wrapped(bs, width), '\n'), width, |bs| == 0)
    decreases |bs|
  {
    if |bs| <= width {
      NoNewlineChars(bs);
      SplitAllNoSep(Chars(bs), '\n');
    } else {
      var head, rest := bs[..width], bs[width..];
      assert head + rest == bs;
      NoNewlineChars(head);
      WrappedLines(rest, width);
      SplitAllPrepend(Chars(head), '\n', Wrapped(rest, width));
    }
  }

  // ---------------------------------------------------------------------
  // Writing the text

  /** Output files: path to content. */
  type Files = map<string, string>

  datatype WriteMode = Skip | Truncate | Append

  /**
   * AlignCommand.createFastaFile: an existing file is left alone when all
   * alt loci go to single files; otherwise a multi-FASTA target is appended
   * to and any other target truncated.
   */
  function AlignWriteMode(exists_: bool, singleAltLociFile: bool, multiFasta: bool): (m: WriteMode)
    ensures m == Skip <==> exists_ && singleAltLociFile
    ensures m == Append <==> !(exists_ && singleAltLociFile) && multiFasta
  {
    if exists_ && singleAltLociFile then Skip
    else if multiFasta then Append
    else Truncate
  }

  /** The hg38 createFastaFile: an existing file is never touched. */
  function Hg38WriteMode(exists_: bool): (m: WriteMode)
    ensures m == Skip <==> exists_
    ensures m != Append
  {
    if exists_ then Skip else Truncate
  }

  /** The files after writing `text` to `path` in the given mode. */
  function Apply(files: Files, path: string, mode: WriteMode, text: string): Files
  {
    match mode
    case Skip => files
    case Truncate => files[path := text]
    case Append => files[path := (if path in files then files[path] else "") + text]
  }

  /**
   * createFastaFile of AlignCommand on a file map: None stands for the
   * exception thrown by a line length of 0.
   */
  function CreateFastaFile(files: Files, path: string, name: string, bases: seq<byte>,
                           multiFasta: bool, singleAltLociFile: bool, lineLength: int): Option<Files>
  {
    var mode := AlignWriteMode(path in files, singleAltLociFile, multiFasta);
    if mode == Skip then Some(files)
    else if lineLength == 0 && |bases| > 1 then None
    else Some(Apply(files, path, mode, FastaText(name, bases, Abs(lineLength))))
  }

  /** createFastaFile of the hg38 CreateFastaCommand on a file map. */
  function CreateFastaFileHg38(files: Files, path: string, name: string, bases: seq<byte>,
                               lineLength: int): Option<Files>
  {
    if Hg38WriteMode(path in files) == Skip then Some(files)
    else if lineLength == 0 && |bases| > 1 then None
    else Some(Apply(files, path, Truncate, FastaText(name, bases, Abs(lineLength))))
  }

  /**
   * The hg38 writer leaves an existing file as it is, and otherwise the
   * file holds exactly the record and nothing else changes.
   */
  lemma Hg38WriteEffect(files: Files, path: string, name: string, bases: seq<byte>, lineLength: int)
    ensures path in files ==> CreateFastaFileHg38(files, path, name, bases, lineLength) == Some(files)
    ensures path !in files && (lineLength != 0 || |bases| <= 1) ==>
      var r := CreateFastaFileHg38(files, path, name, bases, lineLength);
      && r.Some? && r.value.Keys == files.Keys + {path}
      && r.value[path] == FastaText(name, bases, Abs(lineLength))
      && forall p :: p in files ==> r.value[p] == files[p]
  {
  }

  /** Writing the same record twice with the hg38 writer is writing it once. */
  lemma Hg38WriteIdempotent(files: Files, path: string, name: string, bases: seq<byte>, lineLength: int)
    requires CreateFastaFileHg38(files, path, name, bases, lineLength).Some?
    ensures var once := CreateFastaFileHg38(files, path, name, bases, lineLength).value;
      CreateFastaFileHg38(once, path, name, bases, lineLength) == Some(once)
  {
  }

  /**
   * Without multi-FASTA, writing the same record twice is writing it once:
   * the second write is skipped or truncates to the same text.
   */
  lemma AlignWriteIdempotent(files: Files, path: string, name: string, bases: seq<byte>,
                             singleAltLociFile: bool, lineLength: int)
    requires CreateFastaFile(files, path, name, bases, false, singleAltLociFile, lineLength).Some?
    ensures var once := CreateFastaFile(files, path, name, bases, false, singleAltLociFile, lineLength).value;
      CreateFastaFile(once, path, name, bases, false, singleAltLociFile, lineLength) == Some(once)
  {
    var once := CreateFastaFile(files, path, name, bases, false, singleAltLociFile, lineLength).value;
    if !(path in files && singleAltLociFile) {
      var text := FastaText(name, bases, Abs(lineLength));
      assert once == files[path := text];
      assert once[path := text] == once;
    }
  }

  /** In multi-FASTA mode a write that is not skipped adds the record after the old content. */
  lemma AlignAppendEffect(files: Files, path: string, name: string, bases: seq<byte>,
                          singleAltLociFile: bool, lineLength: int)
    requires !(path in files && singleAltLociFile) && (lineLength != 0 || |bases| <= 1)
    ensures var r := CreateFastaFile(files, path, name, bases, true, singleAltLociFile, lineLength);
      && r.Some?
      && r.value[path] == (if path in files then files[path] else "") + FastaText(name, bases, Abs(lineLength))
  {
  }
}
