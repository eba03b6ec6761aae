/**
 * Text primitives of the Java runtime that the modelled code relies on:
 * decimal rendering of an `int` (StringBuilder.append(int)), Integer.parseInt,
 * String.split on a single separator character, and String.replace(char, char).
 */
module Text {
  import opened Wrappers

  const IntMin: int := -0x8000_0000
  const IntMax: int := 0x7fff_ffff

  predicate InIntRange(i: int) { IntMin <= i <= IntMax }

  predicate IsDigit(c: char) { '0' <= c <= '9' }

  predicate AllDigits(s: string) { forall i :: 0 <= i < |s| ==> IsDigit(s[i]) }

  function DigitChar(d: nat): (c: char)
    requires d < 10
    ensures IsDigit(c)
  {
    ('0' as int + d) as char
  }

  function DigitValue(c: char): (d: nat)
    requires IsDigit(c)
    ensures d < 10
  {
    c as int - '0' as int
  }

  /** Decimal digits of a natural number, most significant first, without leading zeros. */
  function NatToString(n: nat): (s: string)
    ensures |s| > 0 && AllDigits(s)
    ensures |s| > 1 ==> s[0] != '0'
  {
    if n < 10 then [DigitChar(n)] else NatToString(n / 10) + [DigitChar(n % 10)]
  }

  /** Decimal rendering of an int: a '-' sign for negative values, then the digits. */
  function IntToString(i: int): (s: string)
    ensures |s| > 0
    ensures forall k :: 0 <= k < |s| ==> IsDigit(s[k]) || (k == 0 && s[k] == '-' && i < 0)
  {
    if i < 0 then "-" + NatToString(-i) else NatToString(i)
  }

  /** The value of a string of decimal digits. */
  function DigitsValue(s: string): nat
    requires AllDigits(s)
  {
    if |s| == 0 then 0 else DigitsValue(s[..|s| - 1]) * 10 + DigitValue(s[|s| - 1])
  }

  lemma {:induction false} DigitsValueOfNatToString(n: nat)
    ensures DigitsValue(NatToString(n)) == n
  {
    if n >= 10 {
      var s := NatToString(n);
      assert s[..|s| - 1] == NatToString(n / 10);
      DigitsValueOfNatToString(n / 10);
    }
  }

  /** The digits of a number: the text after an optional leading sign. */
  function Unsigned(s: string): string
  {
    if |s| > 0 && (s[0] == '-' || s[0] == '+') then s[1..] else s
  }

  /** An optional '+' or '-', then at least one ASCII digit. */
  predicate IntSyntax(s: string)
  {
    |Unsigned(s)| > 0 && AllDigits(Unsigned(s))
  }

  /** The value an integer text denotes, negated after a '-'. */
  function SignedValue(s: string): int
    requires IntSyntax(s)
  {
    if s[0] == '-' then -(DigitsValue(Unsigned(s)) as int) else DigitsValue(Unsigned(s))
  }

  /**
   * Integer.parseInt(s) in radix 10: an optional '+' or '-', then at least
   * one ASCII digit, and a value inside the 32-bit range; `None` is the
   * NumberFormatException.
   */
  function ParseInt(s: string): (r: Option<int>)
    ensures r.Some? ==> InIntRange(r.value)
    ensures r.Some? ==> |s| > 0 && (s[0] == '-' || s[0] == '+' || IsDigit(s[0]))
    ensures r.Some? && s[0] == '-' ==> r.value <= 0
    ensures r.Some? && s[0] != '-' ==> r.value >= 0
  {
    if |s| == 0 then None
    else if s[0] == '-' || s[0] == '+' then
      var digits := s[1..];
      if |digits| == 0 || !AllDigits(digits) then None
      else
        var v: int := if s[0] == '-' then -(DigitsValue(digits) as int) else DigitsValue(digits);
        if InIntRange(v) then Some(v) else None
    else if !AllDigits(s) then None
    else if InIntRange(DigitsValue(s)) then Some(DigitsValue(s)) else None
  }

  /**
   * What Integer.parseInt accepts and what it yields: exactly the texts
   * made of an optional sign and at least one digit whose value fits an
   * int, read as that value.
   */
  lemma ParseIntMeaning(s: string)
    ensures ParseInt(s).Some? <==> IntSyntax(s) && InIntRange(SignedValue(s))
    ensures ParseInt(s).Some? ==> ParseInt(s).value == SignedValue(s)
  {
  }

  /**
   * Texts Integer.parseInt rejects: a letter among the digits, a sign
   * alone, a doubled sign, the empty string; a leading '+' and leading
   * zeros are accepted.
   */
  lemma ParseIntExamples()
    ensures ParseInt("1a2").None? && ParseInt("+").None? && ParseInt("--1").None? && ParseInt("").None?
    ensures ParseInt("+007") == Some(7)
  {
    assert !IsDigit("1a2"[1]);
    assert !IsDigit("--1"[1]);
    assert "+007"[1..] == "007";
    assert "007"[..2] == "00" && "00"[..1] == "0" && "0"[..0] == "";
  }

  /** Integer.toString then Integer.parseInt: an int comes back, anything wider is rejected. */
  lemma ParseIntOfIntToString(i: int)
    ensures ParseInt(IntToString(i)) == if InIntRange(i) then Some(i) else None
  {
    if i < 0 {
      assert IntToString(i)[1..] == NatToString(-i);
      DigitsValueOfNatToString(-i);
    } else {
      DigitsValueOfNatToString(i);
    }
  }

  /** String.replace(from, to): every occurrence of `from` becomes `to`, nothing else changes. */
  function ReplaceChar(s: string, from: char, to: char): (r: string)
    ensures |r| == |s|
    ensures forall i :: 0 <= i < |s| ==> r[i] == (if s[i] == from then to else s[i])
  {
    if |s| == 0 then [] else ReplaceChar(s[..|s| - 1], from, to) + [if s[|s| - 1] == from then to else s[|s| - 1]]
  }

  /** Every piece between occurrences of `sep`, empty pieces included. */
  function SplitAll(s: string, sep: char): (r: seq<string>)
    ensures |r| > 0
    ensures forall k :: 0 <= k < |r| ==> sep !in r[k]
  {
    if |s| == 0 then [""]
    else
      var init := SplitAll(s[..|s| - 1], sep);
      if s[|s| - 1] == sep then init + [""]
      else init[..|init| - 1] + [init[|init| - 1] + [s[|s| - 1]]]
  }

  /** The pieces put back together with `sep` between consecutive ones. */
  function Join(parts: seq<string>, sep: char): string
    requires |parts| > 0
  {
    if |parts| == 1 then parts[0] else Join(parts[..|parts| - 1], sep) + [sep] + parts[|parts| - 1]
  }

  lemma JoinPrefixStep(parts: seq<string>, sep: char, k: nat)
    requires 1 <= k < |parts|
    ensures Join(parts[..k + 1], sep) == Join(parts[..k], sep) + [sep] + parts[k]
  {
    assert parts[..k + 1][..k] == parts[..k];
  }

  /** The first occurrence of `c` in `p + [c] + r` when `p` does not contain it. */
  function IndexOf(s: string, c: char): (i: nat)
    requires c in s
    ensures i < |s| && s[i] == c && c !in s[..i]
  {
    if s[0] == c then 0 else 1 + IndexOf(s[1..], c)
  }

  lemma {:induction false} IndexOfAfterPrefix(p: string, c: char, r: string)
    requires c !in p
    ensures c in p + [c] + r && IndexOf(p + [c] + r, c) == |p|
  {
    var s := p + [c] + r;
    assert s[|p|] == c;
    if p != [] {
      assert s[1..] == p[1..] + [c] + r;
      IndexOfAfterPrefix(p[1..], c, r);
    }
  }

  lemma {:induction false} SplitAllNoSep(s: string, sep: char)
    requires sep !in s
    ensures SplitAll(s, sep) == [s]
  {
    if |s| > 0 {
      assert sep !in s[..|s| - 1];
      SplitAllNoSep(s[..|s| - 1], sep);
      assert s[..|s| - 1] + [s[|s| - 1]] == s;
    }
  }

  /** Splitting `prefix + sep + last` adds exactly one piece, `last`. */
  lemma {:induction false} SplitAllAppend(prefix: string, sep: char, last: string)
    requires sep !in last
    ensures SplitAll(prefix + [sep] + last, sep) == SplitAll(prefix, sep) + [last]
    decreases |last|
  {
    var s := prefix + [sep] + last;
    if |last| == 0 {
      assert s[..|s| - 1] == prefix;
    } else {
      var shorter := last[..|last| - 1];
      assert sep !in shorter;
      assert s[..|s| - 1] == prefix + [sep] + shorter;
      SplitAllAppend(prefix, sep, shorter);
      assert shorter + [last[|last| - 1]] == last;
    }
  }

  /** The pieces with one more character on the last one. */
  function ExtendLast(parts: seq<string>, c: char): (r: seq<string>)
    requires |parts| > 0
    ensures |r| == |parts|
  {
    parts[..|parts| - 1] + [parts[|parts| - 1] + [c]]
  }

  /** One more character either opens a new piece or extends the last one. */
  lemma SplitAllSnoc(s: string, sep: char, c: char)
    ensures c == sep ==> SplitAll(s + [c], sep) == SplitAll(s, sep) + [""]
    ensures c != sep ==> SplitAll(s + [c], sep) == ExtendLast(SplitAll(s, sep), c)
  {
    assert (s + [c])[..|s|] == s;
  }

  /** Splitting `first + sep + rest` puts `first` in front of the pieces of `rest`. */
  lemma {:induction false} SplitAllPrepend(first: string, sep: char, rest: string)
    requires sep !in first
    ensures SplitAll(first + [sep] + rest, sep) == [first] + SplitAll(rest, sep)
    decreases |rest|
  {
    if |rest| == 0 {
      assert first + [sep] + rest == first + [sep];
      SplitAllSnoc(first, sep, sep);
      SplitAllNoSep(first, sep);
    } else {
      var shorter, c := rest[..|rest| - 1], rest[|rest| - 1];
      assert first + [sep] + rest == (first + [sep] + shorter) + [c];
      assert rest == shorter + [c];
      SplitAllPrepend(first, sep, shorter);
      SplitAllSnoc(first + [sep] + shorter, sep, c);
      SplitAllSnoc(shorter, sep, c);
      var tail := SplitAll(shorter, sep);
      assert c != sep ==> ExtendLast([first] + tail, c) == [first] + ExtendLast(tail, c);
    }
  }

  /** Splitting undoes joining when no piece contains the separator. */
  lemma {:induction false} SplitAllOfJoin(parts: seq<string>, sep: char)
    requires |parts| > 0
    requires forall k :: 0 <= k < |parts| ==> sep !in parts[k]
    ensures SplitAll(Join(parts, sep), sep) == parts
  {
    if |parts| == 1 {
      SplitAllNoSep(parts[0], sep);
    } else {
      var init := parts[..|parts| - 1];
      SplitAllOfJoin(init, sep);
      SplitAllAppend(Join(init, sep), sep, parts[|parts| - 1]);
      assert init + [parts[|parts| - 1]] == parts;
    }
  }

  /** The pieces with the trailing empty ones removed. */
  function DropTrailingEmpty(parts: seq<string>): (r: seq<string>)
    ensures |r| <= |parts| && r == parts[..|r|]
    ensures |r| > 0 ==> r[|r| - 1] != ""
    ensures forall k :: |r| <= k < |parts| ==> parts[k] == ""
  {
    if |parts| == 0 then []
    else if parts[|parts| - 1] == "" then DropTrailingEmpty(parts[..|parts| - 1])
    else parts
  }

  /** Joining after one more character on the last piece is joining, then the character. */
  lemma JoinExtendLast(parts: seq<string>, sep: char, c: char)
    requires |parts| > 0
    ensures Join(ExtendLast(parts, c), sep) == Join(parts, sep) + [c]
  {
    var e := ExtendLast(parts, c);
    if |parts| > 1 {
      assert e[..|e| - 1] == parts[..|parts| - 1];
    }
  }

  /** Joining the pieces of a split with the separator gives back the text. */
  lemma {:induction false} JoinSplitAll(s: string, sep: char)
    ensures Join(SplitAll(s, sep), sep) == s
    decreases |s|
  {
    if |s| > 0 {
      var init, c := s[..|s| - 1], s[|s| - 1];
      assert s == init + [c];
      JoinSplitAll(init, sep);
      SplitAllSnoc(init, sep, c);
      if c == sep {
        var parts := SplitAll(init, sep) + [""];
        assert parts[..|parts| - 1] == SplitAll(init, sep);
      } else {
        JoinExtendLast(SplitAll(init, sep), sep, c);
      }
    }
  }

  /** `n` empty pieces. */
  function Empties(n: nat): (r: seq<string>)
    ensures |r| == n && forall k :: 0 <= k < n ==> r[k] == ""
  {
    seq(n, _ => "")
  }

  /** The dropped pieces are all empty: padding with empties restores them. */
  lemma PaddedDropTrailingEmpty(parts: seq<string>)
    ensures var r := DropTrailingEmpty(parts); r + Empties(|parts| - |r|) == parts
  {
    var r := DropTrailingEmpty(parts);
    assert forall k :: 0 <= k < |parts| ==> (r + Empties(|parts| - |r|))[k] == parts[k];
  }

  /**
   * String.split(sep) with the default limit 0: a string without the
   * separator gives itself as the only piece (so "" gives [""]); otherwise
   * all pieces are taken and the trailing empty ones are removed.
   */
  function JavaSplit(s: string, sep: char): (r: seq<string>)
    ensures forall k :: 0 <= k < |r| ==> sep !in r[k]
    ensures sep !in s ==> r == [s]
    ensures sep in s ==> r == [] || r[|r| - 1] != ""
    ensures |r| <= |SplitAll(s, sep)|
    ensures Join(r + Empties(|SplitAll(s, sep)| - |r|), sep) == s
  {
    JoinSplitAll(s, sep);
    if sep !in s then
      SplitAllNoSep(s, sep);
      [s]
    else
      PaddedDropTrailingEmpty(SplitAll(s, sep));
      DropTrailingEmpty(SplitAll(s, sep))
  }

  /** A trailing separator does not change a Java split of a non-empty string. */
  lemma JavaSplitTrailingSeparator(s: string, sep: char)
    requires s != ""
    ensures JavaSplit(s + [sep], sep) == JavaSplit(s, sep)
  {
    var t := s + [sep];
    assert t[..|t| - 1] == s;
    assert SplitAll(t, sep) == SplitAll(s, sep) + [""];
    assert DropTrailingEmpty(SplitAll(t, sep)) == DropTrailingEmpty(SplitAll(s, sep));
    if sep !in s {
      SplitAllNoSep(s, sep);
    }
  }
}
