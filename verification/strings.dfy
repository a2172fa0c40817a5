/** Text helpers the adapter builds on: decimal rendering of integers (PHP's
    string interpolation of an int), `explode`/`implode` on one separator, and
    leftmost substring search (what an unanchored regular expression does with
    a literal prefix). */
module Strings {
  import opened Options

  predicate IsDigit(c: char) {
    '0' <= c <= '9'
  }

  predicate AllDigits(s: string) {
    forall i :: 0 <= i < |s| ==> IsDigit(s[i])
  }

  function DigitChar(d: nat): (c: char)
    requires d < 10
    ensures IsDigit(c)
    ensures c == '0' <==> d == 0
  {
    ('0' as int + d) as char
  }

  function DigitValue(c: char): (d: nat)
    requires IsDigit(c)
    ensures d < 10 && DigitChar(d) == c
  {
    c as int - '0' as int
  }

  /** Decimal rendering of a natural number: digits only, no leading zero. */
  function NatToText(n: nat): (s: string)
    ensures 0 < |s| && AllDigits(s)
    ensures s[0] == '0' ==> n == 0
    decreases n
  {
    if n < 10 then [DigitChar(n)] else NatToText(n / 10) + [DigitChar(n % 10)]
  }

  /** PHP's rendering of an integer in string context: an optional minus sign, then the digits. */
  function IntToText(i: int): (s: string)
    ensures 0 < |s|
    ensures forall k :: 0 <= k < |s| ==> IsDigit(s[k]) || (k == 0 && s[k] == '-')
    ensures s[0] == '-' <==> i < 0
  {
    if i < 0 then "-" + NatToText(-i) else NatToText(i)
  }

  /** The number a run of decimal digits denotes. */
  function DigitsValue(s: string): nat
    requires AllDigits(s)
  {
    if |s| == 0 then 0 else DigitsValue(s[..|s| - 1]) * 10 + DigitValue(s[|s| - 1])
  }

  /** Reading back the decimal rendering gives the number again. */
  lemma {:induction false} DigitsValueOfNatToText(n: nat)
    ensures DigitsValue(NatToText(n)) == n
    decreases n
  {
    var s := NatToText(n);
    if n < 10 {
      assert s[..|s| - 1] == [];
    } else {
      assert s[..|s| - 1] == NatToText(n / 10);
      DigitsValueOfNatToText(n / 10);
    }
  }

  /** Reads back an `IntToText` rendering. */
  function ParseIntText(s: string): int
    requires 0 < |s|
    requires forall k :: 0 <= k < |s| ==> IsDigit(s[k]) || (k == 0 && s[k] == '-')
  {
    if s[0] == '-' then -(DigitsValue(s[1..]) as int) else DigitsValue(s)
  }

  lemma ParseIntTextOfIntToText(i: int)
    ensures ParseIntText(IntToText(i)) == i
  {
    if i < 0 {
      assert IntToText(i)[1..] == NatToText(-i);
      DigitsValueOfNatToText(-i);
    } else {
      DigitsValueOfNatToText(i);
    }
  }

  /** Distinct integers have distinct renderings. */
  lemma IntToTextInjective(a: int, b: int)
    ensures IntToText(a) == IntToText(b) ==> a == b
  {
    ParseIntTextOfIntToText(a);
    ParseIntTextOfIntToText(b);
  }

  predicate StartsWith(s: string, p: string) {
    |p| <= |s| && s[..|p|] == p
  }

  predicate EndsWith(s: string, p: string) {
    |p| <= |s| && s[|s| - |p|..] == p
  }

  /** `p` occurs in `s` starting at index `i`. */
  predicate OccursAt(s: string, p: string, i: int) {
    0 <= i && i + |p| <= |s| && s[i..i + |p|] == p
  }

  ghost predicate Contains(s: string, p: string) {
    exists i :: OccursAt(s, p, i)
  }

  /** The leftmost occurrence of `p` in `s` at or after index `from`. */
  function FindFrom(s: string, p: string, from: nat): (r: Option<nat>)
    ensures r.Some? ==> from <= r.value && OccursAt(s, p, r.value)
    ensures r.Some? ==> forall j :: from <= j < r.value ==> !OccursAt(s, p, j)
    ensures r.None? ==> forall j :: from <= j ==> !OccursAt(s, p, j)
    decreases |s| - from
  {
    if from + |p| > |s| then None
    else if s[from..from + |p|] == p then Some(from)
    else FindFrom(s, p, from + 1)
  }

  /** The first index of `c` in `s`, if any (PHP `strpos` with a one-character needle). */
  function IndexOfChar(s: string, c: char): (r: Option<nat>)
    ensures r.None? <==> c !in s
    ensures r.Some? ==> r.value < |s| && s[r.value] == c && c !in s[..r.value]
  {
    if |s| == 0 then None
    else if s[0] == c then Some(0)
    else
      match IndexOfChar(s[1..], c)
      case None => None
      case Some(k) =>
        assert s[..k + 1] == [s[0]] + s[1..][..k];
        Some(k + 1)
  }

  /** The number of occurrences of `c` in `s`. */
  function CountChar(s: string, c: char): (n: nat)
    ensures n <= |s|
    ensures n == 0 <==> c !in s
  {
    if |s| == 0 then 0
    else (if s[0] == c then 1 else 0) + CountChar(s[1..], c)
  }

  lemma ConcatAssoc(a: string, b: string, c: string)
    ensures a + (b + c) == (a + b) + c
  {
  }

  lemma {:induction false} CountCharAppend(a: string, b: string, c: char)
    ensures CountChar(a + b, c) == CountChar(a, c) + CountChar(b, c)
    decreases |a|
  {
    if |a| > 0 {
      assert (a + b)[1..] == a[1..] + b;
      CountCharAppend(a[1..], b, c);
    } else {
      assert a + b == b;
    }
  }

  /** PHP `implode(sep, parts)`. */
  function Join(sep: string, parts: seq<string>): string {
    if |parts| == 0 then ""
    else if |parts| == 1 then parts[0]
    else parts[0] + sep + Join(sep, parts[1..])
  }

  /** A character in neither the separator nor any part is not in the join. */
  lemma {:induction false} NotInJoin(c: char, sep: string, parts: seq<string>)
    requires c !in sep
    requires forall i :: 0 <= i < |parts| ==> c !in parts[i]
    ensures c !in Join(sep, parts)
    decreases |parts|
  {
    if |parts| > 1 {
      forall i | 0 <= i < |parts| - 1 ensures c !in parts[1..][i] {
        assert parts[1..][i] == parts[i + 1];
      }
      NotInJoin(c, sep, parts[1..]);
    }
  }

  /** A character of any part is in the join. */
  lemma {:induction false} InJoin(c: char, sep: string, parts: seq<string>, i: nat)
    requires i < |parts| && c in parts[i]
    ensures c in Join(sep, parts)
    decreases i
  {
    if i > 0 {
      assert parts[1..][i - 1] == parts[i];
      InJoin(c, sep, parts[1..], i - 1);
    }
  }

  /** The count of a character in a join of two or more parts: the first
      part's, the separator's and the rest's. */
  lemma CountCharJoin(c: char, sep: string, parts: seq<string>)
    requires 1 < |parts|
    ensures CountChar(Join(sep, parts), c)
         == CountChar(parts[0], c) + CountChar(sep, c) + CountChar(Join(sep, parts[1..]), c)
  {
    CountCharAppend(parts[0] + sep, Join(sep, parts[1..]), c);
    CountCharAppend(parts[0], sep, c);
  }

  /** The first piece of a join, then what follows it up to a trailing text. */
  lemma JoinHead(sep: string, parts: seq<string>, tail: string)
    requires 0 < |parts|
    ensures Join(sep, parts) + tail
         == parts[0] + (if |parts| == 1 then tail else sep + (Join(sep, parts[1..]) + tail))
  {
    if |parts| > 1 {
      ConcatAssoc(parts[0], sep, Join(sep, parts[1..]));
      ConcatAssoc(parts[0] + sep, Join(sep, parts[1..]), tail);
      ConcatAssoc(parts[0], sep, Join(sep, parts[1..]) + tail);
      ConcatAssoc(sep, Join(sep, parts[1..]), tail);
    }
  }

  /** PHP `explode(c, s)` for a one-character separator: never empty, no piece holds `c`. */
  function Split(s: string, c: char): (parts: seq<string>)
    ensures 0 < |parts|
    ensures forall k :: 0 <= k < |parts| ==> c !in parts[k]
    decreases |s|
  {
    match IndexOfChar(s, c)
    case None => [s]
    case Some(k) => [s[..k]] + Split(s[k + 1..], c)
  }

  /** Joining the pieces of a split with the separator restores the text. */
  lemma {:induction false} JoinSplit(s: string, c: char)
    ensures Join([c], Split(s, c)) == s
    decreases |s|
  {
    match IndexOfChar(s, c)
    case None =>
    case Some(k) =>
      var rest := Split(s[k + 1..], c);
      assert Split(s, c) == [s[..k]] + rest;
      assert ([s[..k]] + rest)[1..] == rest;
      JoinSplit(s[k + 1..], c);
      assert s == s[..k] + [c] + s[k + 1..];
  }

  /** A separator-free piece in front of the separator is split off whole. */
  lemma SplitCons(p: string, c: char, tail: string)
    requires c !in p
    ensures Split(p + [c] + tail, c) == [p] + Split(tail, c)
  {
    var s := p + [c] + tail;
    var r := IndexOfChar(s, c);
    assert s[|p|] == c;
    assert s[..|p|] == p;
    assert r.Some? && r.value == |p|;
    assert s[|p| + 1..] == tail;
  }

  /** Splitting a join of separator-free pieces gives the pieces back. */
  lemma {:induction false} SplitJoin(parts: seq<string>, c: char)
    requires 0 < |parts|
    requires forall k :: 0 <= k < |parts| ==> c !in parts[k]
    ensures Split(Join([c], parts), c) == parts
    decreases |parts|
  {
    if |parts| > 1 {
      SplitCons(parts[0], c, Join([c], parts[1..]));
      SplitJoin(parts[1..], c);
      assert parts == [parts[0]] + parts[1..];
    }
  }

  /** The first index at which `x` occurs in `xs` (PHP `array_search`, strict on strings). */
  function IndexOf(xs: seq<string>, x: string): (r: Option<nat>)
    ensures r.None? <==> x !in xs
    ensures r.Some? ==> r.value < |xs| && xs[r.value] == x && x !in xs[..r.value]
  {
    if |xs| == 0 then None
    else if xs[0] == x then Some(0)
    else
      match IndexOf(xs[1..], x)
      case None => None
      case Some(k) =>
        assert xs[..k + 1] == [xs[0]] + xs[1..][..k];
        Some(k + 1)
  }
}
