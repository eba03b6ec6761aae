/**
 * Bases as the reference store hands them out: one byte per base, and the
 * reverse complement applied to alt loci placed on the minus strand.
 */
module Bases {

  /** A Java byte, read as its unsigned value 0..255. */
  newtype byte = x: int | 0 <= x < 256

  /** The byte value of 'N'. */
  const N: byte := 78

  /** The byte value of '\n'. */
  const NewLine: byte := 10

  /**
   * The char a Writer receives for a byte: Java widens the signed byte to
   * an int and keeps its low 16 bits, so bytes from 0x80 up land in
   * 0xFF80..0xFFFF.
   */
  function ByteChar(b: byte): (c: char)
    ensures b < 128 ==> c as int == b as int
    ensures b >= 128 ==> c as int == b as int + 0xFF00
  {
    if b < 128 then b as int as char else (b as int + 0xFF00) as char
  }

  lemma ByteCharInjective(b: byte, d: byte)
    ensures ByteChar(b) == ByteChar(d) <==> b == d
  {
  }

  /** The bytes written one by one as chars. */
  function Chars(bs: seq<byte>): (cs: string)
    ensures |cs| == |bs|
  {
    seq(|bs|, i requires 0 <= i < |bs| => ByteChar(bs[i]))
  }

  const A: byte := 65
  const C: byte := 67
  const G: byte := 71
  const T: byte := 84
  const LowerA: byte := 97
  const LowerC: byte := 99
  const LowerG: byte := 103
  const LowerT: byte := 116

  /**
   * Watson-Crick complement of a base in either case; any other byte
   * (N, IUPAC codes, punctuation) is its own complement.
   */
  function Complement(b: byte): (c: byte)
    ensures b in {A, C, G, T} <==> c in {A, C, G, T}
    ensures b in {LowerA, LowerC, LowerG, LowerT} <==> c in {LowerA, LowerC, LowerG, LowerT}
    ensures c == N <==> b == N
  {
    if b == A then T else if b == T then A
    else if b == C then G else if b == G then C
    else if b == LowerA then LowerT else if b == LowerT then LowerA
    else if b == LowerC then LowerG else if b == LowerG then LowerC
    else b
  }

  lemma ComplementInvolutive(b: byte)
    ensures Complement(Complement(b)) == b
  {
  }

  /** The bases read backwards, each replaced by its complement. */
  function ReverseComplement(bs: seq<byte>): (r: seq<byte>)
    ensures |r| == |bs|
    ensures forall i :: 0 <= i < |bs| ==> r[i] == Complement(bs[|bs| - 1 - i])
  {
    if |bs| == 0 then [] else [Complement(bs[|bs| - 1])] + ReverseComplement(bs[..|bs| - 1])
  }

  /** Reverse complementing twice gives back the bases. */
  lemma ReverseComplementInvolutive(bs: seq<byte>)
    ensures ReverseComplement(ReverseComplement(bs)) == bs
  {
    var r := ReverseComplement(bs);
    forall i | 0 <= i < |bs|
      ensures ReverseComplement(r)[i] == bs[i]
    {
      ComplementInvolutive(bs[i]);
    }
  }

  /** Reverse complement of a concatenation: the parts swap places. */
  lemma ReverseComplementConcat(xs: seq<byte>, ys: seq<byte>)
    ensures ReverseComplement(xs + ys) == ReverseComplement(ys) + ReverseComplement(xs)
  {
    var l, r := ReverseComplement(xs + ys), ReverseComplement(ys) + ReverseComplement(xs);
    forall i | 0 <= i < |xs| + |ys|
      ensures l[i] == r[i]
    {
      assert l[i] == Complement((xs + ys)[|xs| + |ys| - 1 - i]);
      if i < |ys| {
        assert (xs + ys)[|xs| + |ys| - 1 - i] == ys[|ys| - 1 - i];
        assert r[i] == ReverseComplement(ys)[i];
      } else {
        assert (xs + ys)[|xs| + |ys| - 1 - i] == xs[|xs| - 1 - (i - |ys|)];
        assert r[i] == ReverseComplement(xs)[i - |ys|];
      }
    }
  }

  /**
   * Reverse complements a buffer in place, swapping from both ends towards
   * the middle and complementing each base as it moves.
   */
  method ReverseComplementInPlace(a: array<byte>)
    modifies a
    ensures a[..] == ReverseComplement(old(a[..]))
  {
    ghost var orig := a[..];
    var i, j := 0, a.Length - 1;
    while i < j
      invariant j == a.Length - 1 - i && 0 <= i <= j + 1
      invariant forall k :: 0 <= k < i ==> a[k] == Complement(orig[a.Length - 1 - k])
      invariant forall k :: j < k < a.Length ==> a[k] == Complement(orig[a.Length - 1 - k])
      invariant forall k :: i <= k <= j ==> a[k] == orig[k]
    {
      var tmp := Complement(a[i]);
      a[i] := Complement(a[j]);
      a[j] := tmp;
      i, j := i + 1, j - 1;
    }
    if i == j {
      a[i] := Complement(a[i]);
    }
    assert a[..] == ReverseComplement(orig);
  }
}
