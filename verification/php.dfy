/** The slice of PHP's value semantics the adapter relies on: scalar values,
    truthiness (`if ($x)`), string conversion, `intval` coercion, and PHP's
    ordered arrays (insertion-ordered maps whose assignment to an existing
    key keeps that key's position). */
module Php {
  import opened Options
  import opened Strings

  const PHP_INT_MIN: int := -0x8000_0000_0000_0000
  const PHP_INT_MAX: int := 0x7FFF_FFFF_FFFF_FFFF

  /** A PHP integer: 64 bits wide on the platforms the adapter targets. */
  type Int64 = i: int | PHP_INT_MIN <= i <= PHP_INT_MAX

  /** A scalar PHP value as it reaches the adapter or the statement. */
  datatype Value = Null | Bool(b: bool) | Int(i: Int64) | Float(x: real) | Str(s: string)

  /** PHP truthiness of a string: only "" and "0" are false. */
  predicate StrTruthy(s: string) {
    s != "" && s != "0"
  }

  /** PHP truthiness of a scalar, as `if ($v)` reads it. */
  predicate Truthy(v: Value) {
    match v
    case Null => false
    case Bool(b) => b
    case Int(i) => i != 0
    case Float(x) => x != 0.0
    case Str(s) => StrTruthy(s)
  }

  /** PHP's string conversion of a scalar; the rendering of floats is the
      runtime's and is passed in as `floatText`. */
  function ToText(v: Value, floatText: real -> string): (t: string)
    ensures v.Str? ==> t == v.s
    ensures v.Int? ==> ParseIntTextOk(t) && ParseIntText(t) == v.i
    ensures v.Null? || v == Bool(false) ==> t == ""
  {
    match v
    case Null => ""
    case Bool(b) => if b then "1" else ""
    case Int(i) => ParseIntTextOfIntToText(i); IntToText(i)
    case Float(x) => floatText(x)
    case Str(s) => s
  }

  predicate ParseIntTextOk(t: string) {
    0 < |t| && forall k :: 0 <= k < |t| ==> IsDigit(t[k]) || (k == 0 && t[k] == '-')
  }

  /** Saturation into the 64-bit range (what PHP does to an over-long integer string). */
  function Clamp(n: int): (r: Int64)
    ensures PHP_INT_MIN <= n <= PHP_INT_MAX ==> r == n
    ensures n > PHP_INT_MAX ==> r == PHP_INT_MAX
    ensures n < PHP_INT_MIN ==> r == PHP_INT_MIN
  {
    if n > PHP_INT_MAX then PHP_INT_MAX else if n < PHP_INT_MIN then PHP_INT_MIN else n
  }

  /** Two's-complement wrap of an integer into 64 bits (PHP's float-to-int
      conversion of a value out of range). */
  function Wrap64(n: int): (r: Int64)
    ensures (r - n) % 0x1_0000_0000_0000_0000 == 0
    ensures PHP_INT_MIN <= n <= PHP_INT_MAX ==> r == n
  {
    (n - PHP_INT_MIN) % 0x1_0000_0000_0000_0000 + PHP_INT_MIN
  }

  /** Truncation toward zero. */
  function Trunc(x: real): (n: int)
    ensures x >= 0.0 ==> n as real <= x < n as real + 1.0
    ensures x < 0.0 ==> n as real - 1.0 < x <= n as real
  {
    if x >= 0.0 then x.Floor else -((-x).Floor)
  }

  predicate IsSpace(c: char) {
    c == ' ' || c == '\t' || c == '\n' || c == '\r' || c == 11 as char || c == 12 as char
  }

  function SkipSpaces(s: string): (t: string)
    ensures |t| <= |s| && t == s[|s| - |t|..]
    ensures |t| > 0 ==> !IsSpace(t[0])
  {
    if |s| > 0 && IsSpace(s[0]) then SkipSpaces(s[1..]) else s
  }

  /** The longest prefix of `s` made of decimal digits. */
  function DigitPrefix(s: string): (d: string)
    ensures AllDigits(d) && StartsWith(s, d)
    ensures |d| < |s| ==> !IsDigit(s[|d|])
  {
    if |s| > 0 && IsDigit(s[0]) then [s[0]] + DigitPrefix(s[1..]) else ""
  }

  /** `intval` of a string: leading whitespace, an optional sign, then the
      leading decimal digits; anything after them is ignored, no digits
      read as 0, and values beyond 64 bits saturate. */
  function StrIntVal(s: string): Int64 {
    var t := SkipSpaces(s);
    if |t| > 0 && (t[0] == '-' || t[0] == '+') then
      var n := DigitsValue(DigitPrefix(t[1..]));
      Clamp(if t[0] == '-' then -(n as int) else n)
    else
      Clamp(DigitsValue(DigitPrefix(t)))
  }

  /** PHP `intval`. */
  function IntVal(v: Value): Int64 {
    match v
    case Null => 0
    case Bool(b) => if b then 1 else 0
    case Int(i) => i
    case Float(x) => Wrap64(Trunc(x))
    case Str(s) => StrIntVal(s)
  }

  lemma DigitPrefixOfDigits(s: string)
    requires AllDigits(s)
    ensures DigitPrefix(s) == s
  {
  }

  /** `intval` reads back PHP's own rendering of any 64-bit integer. */
  lemma IntValOfIntText(i: Int64)
    ensures IntVal(Str(IntToText(i))) == i
  {
    var t := IntToText(i);
    assert !IsSpace(t[0]);
    assert SkipSpaces(t) == t;
    if i < 0 {
      var n: nat := -(i as int);
      assert t == "-" + NatToText(n);
      assert t[1..] == NatToText(n);
      DigitPrefixOfDigits(NatToText(n));
      DigitsValueOfNatToText(n);
      assert StrIntVal(t) == Clamp(-(n as int));
    } else {
      assert t == NatToText(i);
      DigitPrefixOfDigits(t);
      DigitsValueOfNatToText(i);
      assert StrIntVal(t) == Clamp(i);
    }
  }

  /** `intval` truncates a float toward zero. */
  lemma IntValOfFloatInRange(x: real)
    requires PHP_INT_MIN as real <= x <= PHP_INT_MAX as real
    ensures x >= 0.0 ==> IntVal(Float(x)) as real <= x < IntVal(Float(x)) as real + 1.0
    ensures x < 0.0 ==> x <= IntVal(Float(x)) as real < x + 1.0
  {
  }

  /** Array keys: PHP arrays are keyed by strings or integers. */
  datatype Key = Name(name: string) | Index(i: int)

  /** Keys of an ordered array, which PHP keeps pairwise distinct. */
  predicate UniqueKeys<K(==), V>(m: seq<(K, V)>) {
    forall i, j :: 0 <= i < j < |m| ==> m[i].0 != m[j].0
  }

  function KeySet<K, V>(m: seq<(K, V)>): set<K> {
    set i | 0 <= i < |m| :: m[i].0
  }

  /** `$m[$k]` read with a missing key giving null. */
  function Lookup<K(==), V>(m: seq<(K, V)>, k: K): (r: Option<V>)
    ensures r.None? <==> k !in KeySet(m)
    ensures r.Some? ==> exists i :: 0 <= i < |m| && m[i] == (k, r.value)
  {
    if |m| == 0 then None
    else if m[0].0 == k then Some(m[0].1)
    else
      var r := Lookup(m[1..], k);
      assert KeySet(m) == {m[0].0} + KeySet(m[1..]) by {
        forall x | x in KeySet(m) ensures x in {m[0].0} + KeySet(m[1..]) {
          var i :| 0 <= i < |m| && m[i].0 == x;
          if i > 0 { assert m[1..][i - 1].0 == x; }
        }
      }
      if r.Some? then
        ghost var i :| 0 <= i < |m[1..]| && m[1..][i] == (k, r.value);
        assert m[i + 1] == (k, r.value);
        r
      else r
  }

  /** The position of key `k` in `m`, if present. */
  function KeyIndex<K(==), V>(m: seq<(K, V)>, k: K): (r: Option<nat>)
    ensures r.None? <==> k !in KeySet(m)
    ensures r.Some? ==> r.value < |m| && m[r.value].0 == k
    ensures r.Some? ==> forall j :: 0 <= j < r.value ==> m[j].0 != k
  {
    if |m| == 0 then None
    else if m[0].0 == k then Some(0)
    else
      KeySetCons(m[0], m[1..]);
      assert m == [m[0]] + m[1..];
      match KeyIndex(m[1..], k)
      case None => None
      case Some(i) => Some(i + 1)
  }

  /** `$m[$k] = $v`: overwrite in place when `k` is present, append otherwise. */
  function Put<K(==), V>(m: seq<(K, V)>, k: K, v: V): (r: seq<(K, V)>)
    ensures k in KeySet(m) ==> |r| == |m|
    ensures k !in KeySet(m) ==> r == m + [(k, v)]
    ensures forall i :: 0 <= i < |m| && m[i].0 != k ==> r[i] == m[i]
    ensures exists i :: 0 <= i < |r| && r[i] == (k, v)
    ensures forall i :: 0 <= i < |r| ==> r[i] == (k, v) || (i < |m| && r[i] == m[i])
  {
    match KeyIndex(m, k)
    case None =>
      assert (m + [(k, v)])[|m|] == (k, v);
      m + [(k, v)]
    case Some(i) =>
      assert m[i := (k, v)][i] == (k, v);
      m[i := (k, v)]
  }

  /** Assignment keeps PHP's distinct keys; the key reads back the new value
      and every other key reads what it read before. */
  lemma PutUnique<K, V>(m: seq<(K, V)>, k: K, v: V)
    requires UniqueKeys(m)
    ensures UniqueKeys(Put(m, k, v))
    ensures KeySet(Put(m, k, v)) == KeySet(m) + {k}
    ensures Lookup(Put(m, k, v), k) == Some(v)
    ensures forall k' :: k' != k && k' in KeySet(m) ==> Lookup(Put(m, k, v), k') == Lookup(m, k')
  {
    var r := Put(m, k, v);
    forall k' | k' != k && k' in KeySet(m) ensures Lookup(r, k') == Lookup(m, k') {
      var j :| 0 <= j < |m| && m[j].0 == k';
      assert r[j] == m[j];
      LookupAt(r, j);
      LookupAt(m, j);
    }
    assert KeySet(r) == KeySet(m) + {k} by {
      if k in KeySet(m) {
        var i := KeyIndex(m, k).value;
        forall x | x in KeySet(r) ensures x in KeySet(m) + {k} {
          var j :| 0 <= j < |r| && r[j].0 == x;
          if j != i { assert r[j] == m[j]; }
        }
        forall x | x in KeySet(m) ensures x in KeySet(r) {
          var j :| 0 <= j < |m| && m[j].0 == x;
          if j != i { assert r[j] == m[j]; } else { assert r[j].0 == k; }
        }
      } else {
        forall x | x in KeySet(r) ensures x in KeySet(m) + {k} {
          var j :| 0 <= j < |r| && r[j].0 == x;
          if j < |m| { assert r[j] == m[j]; }
        }
        forall x | x in KeySet(m) + {k} ensures x in KeySet(r) {
          if x == k { assert r[|m|].0 == k; } else {
            var j :| 0 <= j < |m| && m[j].0 == x;
            assert r[j] == m[j];
          }
        }
      }
    }
    var i :| 0 <= i < |r| && r[i] == (k, v);
    LookupAt(r, i);
  }

  /** With distinct keys, the entry at position `i` is what its key reads. */
  lemma LookupAt<K, V>(m: seq<(K, V)>, i: nat)
    requires UniqueKeys(m) && i < |m|
    ensures Lookup(m, m[i].0) == Some(m[i].1)
  {
    if i > 0 {
      assert m[0].0 != m[i].0;
      assert m[1..][i - 1] == m[i];
      LookupAt(m[1..], i - 1);
    }
  }

  lemma KeySetCons<K, V>(x: (K, V), m: seq<(K, V)>)
    ensures KeySet([x] + m) == {x.0} + KeySet(m)
  {
    var xm := [x] + m;
    forall y | y in KeySet(xm) ensures y in {x.0} + KeySet(m) {
      var i :| 0 <= i < |xm| && xm[i].0 == y;
      if i > 0 { assert m[i - 1].0 == y; }
    }
    forall y | y in KeySet(m) ensures y in KeySet(xm) {
      var i :| 0 <= i < |m| && m[i].0 == y;
      assert xm[i + 1].0 == y;
    }
    assert xm[0].0 == x.0;
  }
}
