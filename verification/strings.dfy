/**
 * The pieces of JavaScript string handling the calendar relies on:
 * `split` and `join` on a one-character separator, `startsWith`, and
 * zero-padded decimal digits as date-fns prints and parses them.
 */
module Strings {
  import opened Arith
  import opened Seqs

  /** `s.split(sep)` for a one-character separator: the empty string gives `[""]`. */
  function Split(s: string, sep: char): (parts: seq<string>)
    ensures |parts| >= 1
    ensures forall i :: 0 <= i < |parts| ==> sep !in parts[i]
    ensures |parts| == 1 <==> sep !in s
  {
    if |s| == 0 then [""]
    else if s[0] == sep then [""] + Split(s[1..], sep)
    else
      var rest := Split(s[1..], sep);
      [[s[0]] + rest[0]] + rest[1..]
  }

  /** `parts.join(sep)`; the empty list joins to the empty string. */
  function Join(parts: seq<string>, sep: char): string {
    if |parts| == 0 then ""
    else if |parts| == 1 then parts[0]
    else parts[0] + [sep] + Join(parts[1..], sep)
  }

  /** Joining the pieces of a split puts the separators back where they were. */
  lemma {:induction false} JoinSplit(s: string, sep: char)
    ensures Join(Split(s, sep), sep) == s
  {
    if |s| == 0 {
    } else if s[0] == sep {
      JoinSplit(s[1..], sep);
      HeadTail(s);
      JoinCons("", Split(s[1..], sep), sep);
    } else {
      var rest := Split(s[1..], sep);
      JoinSplit(s[1..], sep);
      HeadTail(s);
      HeadTail(rest);
      JoinFirstPiece(s[0], rest, sep);
    }
  }

  /** Joining after a first piece puts one separator between it and the rest. */
  lemma JoinCons(p: string, rest: seq<string>, sep: char)
    requires |rest| >= 1
    ensures Join([p] + rest, sep) == p + [sep] + Join(rest, sep)
  {
    ConsParts(p, rest);
  }

  /** A character added in front of the first piece comes first in the join. */
  lemma JoinFirstPiece(c: char, parts: seq<string>, sep: char)
    requires |parts| >= 1
    ensures Join([[c] + parts[0]] + parts[1..], sep) == [c] + Join(parts, sep)
  {
    ConsParts([c] + parts[0], parts[1..]);
    if |parts| > 1 {
      ConcatAssoc([c], parts[0], [sep]);
      ConcatAssoc([c], parts[0] + [sep], Join(parts[1..], sep));
    }
  }

  /** Splitting a join of separator-free pieces recovers the pieces. */
  lemma {:induction false} SplitJoin(parts: seq<string>, sep: char)
    requires |parts| >= 1
    requires forall i :: 0 <= i < |parts| ==> sep !in parts[i]
    ensures Split(Join(parts, sep), sep) == parts
  {
    if |parts| == 1 {
      SplitNoSeparator(parts[0], sep);
    } else {
      SplitJoin(parts[1..], sep);
      SplitAfterPiece(parts[0], sep, Join(parts[1..], sep));
      HeadTail(parts);
    }
  }

  lemma {:induction false} SplitNoSeparator(s: string, sep: char)
    requires sep !in s
    ensures Split(s, sep) == [s]
  {
    if |s| > 0 {
      SplitNoSeparator(s[1..], sep);
      HeadTail(s);
    }
  }

  /** A separator-free piece followed by the separator is split off as one part. */
  lemma {:induction false} SplitAfterPiece(p: string, sep: char, s: string)
    requires sep !in p
    ensures Split(p + [sep] + s, sep) == [p] + Split(s, sep)
  {
    if |p| == 0 {
      EmptyConcat(p, [sep]);
      ConsParts(sep, s);
    } else {
      SplitAfterPiece(p[1..], sep, s);
      TailOfConcat(p, [sep]);
      TailOfConcat(p + [sep], s);
      ConcatAssoc(p[1..], [sep], s);
      HeadTail(p);
      ConsParts(p[1..], Split(s, sep));
    }
  }

  /** `s.startsWith(prefix)`. */
  predicate StartsWith(s: string, prefix: string) {
    |prefix| <= |s| && s[..|prefix|] == prefix
  }

  predicate IsDigit(c: char) {
    '0' <= c <= '9'
  }

  predicate AllDigits(s: string) {
    forall i :: 0 <= i < |s| ==> IsDigit(s[i])
  }

  function DigitChar(d: nat): (c: char)
    requires d < 10
    ensures IsDigit(c)
  {
    ('0' as int + d) as char
  }

  function Pow10(k: nat): (p: nat)
    ensures p >= 1
  {
    if k == 0 then 1 else 10 * Pow10(k - 1)
  }

  /** The decimal digits of `n`, left-padded with zeros to at least `width` characters. */
  function Decimal(n: nat, width: nat): (s: string)
    ensures |s| >= 1 && |s| >= width
    ensures AllDigits(s)
    decreases n + width
  {
    if n < 10 && width <= 1 then [DigitChar(n)]
    else Decimal(n / 10, if width == 0 then 0 else width - 1) + [DigitChar(n % 10)]
  }

  /** The value of a string of decimal digits; leading zeros add nothing. */
  function DigitsValue(s: string): nat
    requires AllDigits(s)
  {
    if |s| == 0 then 0
    else 10 * DigitsValue(s[..|s| - 1]) + (s[|s| - 1] as int - '0' as int)
  }

  /** Reading back printed digits gives the number, whatever the padding. */
  lemma {:induction false} DecimalRoundTrip(n: nat, width: nat)
    ensures DigitsValue(Decimal(n, width)) == n
    decreases n + width
  {
    var s := Decimal(n, width);
    if n < 10 && width <= 1 {
      assert s[..0] == [];
    } else {
      var w := if width == 0 then 0 else width - 1;
      DecimalRoundTrip(n / 10, w);
      assert s[..|s| - 1] == Decimal(n / 10, w);
    }
  }

  /** Below 10^width the padding is exact: the number prints in `width` characters. */
  lemma {:induction false} DecimalWidth(n: nat, width: nat)
    requires 1 <= width && n < Pow10(width)
    ensures |Decimal(n, width)| == width
    decreases width
  {
    if n < 10 && width <= 1 {
    } else {
      assert width >= 2;
      DecimalWidth(n / 10, width - 1);
    }
  }

  /** A digit string of exactly `|s|` characters prints back to itself. */
  lemma {:induction false} DigitsRoundTrip(s: string)
    requires |s| >= 1 && AllDigits(s)
    ensures Decimal(DigitsValue(s), |s|) == s
  {
    var init := s[..|s| - 1];
    var c := s[|s| - 1];
    var d := c as int - '0' as int;
    DigitOfChar(c);
    var n := DigitsValue(s);
    assert n == 10 * DigitsValue(init) + d;
    InitLast(s);
    if |init| == 0 {
      assert n == d;
      EmptyConcat(init, [c]);
    } else {
      DigitsRoundTrip(init);
      DivModUnique(n, 10, DigitsValue(init), d);
      assert Decimal(n, |s|) == Decimal(n / 10, |s| - 1) + [DigitChar(n % 10)];
    }
  }

  lemma DigitOfChar(c: char)
    requires IsDigit(c)
    ensures 0 <= c as int - '0' as int < 10 && DigitChar(c as int - '0' as int) == c
  {
  }

  lemma {:induction false} DigitsValueBound(s: string)
    requires AllDigits(s)
    ensures DigitsValue(s) < Pow10(|s|)
  {
    if |s| > 0 {
      DigitsValueBound(s[..|s| - 1]);
    }
  }

  lemma Pow10Values()
    ensures Pow10(2) == 100 && Pow10(4) == 10000
  {
    assert Pow10(1) == 10;
    assert Pow10(3) == 1000;
  }
}
