/** Decoding of the catalog rows `describeTable` reads: the declared length
    of character columns, the clean default of character literals, primary-key
    membership and position, the identity flag and nullability, and the
    ordered, case-folded mapping from column name to descriptor. */
module Catalog {
  import opened Options
  import opened Strings
  import opened Php

  /** One row of the catalog query, in the query's column order. The
      numeric catalog columns are read as integers; `conkey` is the
      constraint's key columns joined with `,`. Absent values are `None`. */
  datatype CatalogRow = CatalogRow(
    attnum: int,
    nspname: string,
    relname: string,
    colname: string,
    typname: string,
    atttypmod: int,
    completeType: string,
    defaultValue: Option<string>,
    notnull: string,
    attlen: Option<int>,
    contype: Option<string>,
    conkey: Option<string>)

  /** The descriptor `describeTable` returns for one column. SCALE, PRECISION
      and UNSIGNED are always null in the source and are not carried. */
  datatype ColumnDescriptor = ColumnDescriptor(
    schemaName: string,
    tableName: string,
    columnName: string,
    columnPosition: int,
    dataType: string,
    defaultValue: Option<string>,
    nullable: bool,
    length: Option<int>,
    primary: bool,
    primaryPosition: Option<int>,
    identity: bool)

  /** The two type names whose rows get length and default post-processing. */
  predicate IsCharacterType(typname: string) {
    typname == "varchar" || typname == "bpchar"
  }

  const CharacterWord: string := "character"
  const VaryingWord: string := " varying"

  /** Outcome of `/character(?: varying)?(?:\((\d+)\))?/`: no match, or a
      match whose digit group is present or not. */
  datatype LengthMatch = NoMatch | Matched(bound: Option<string>)

  /** The end of the maximal run of digits of `s` that starts at `i`. */
  function DigitRunEnd(s: string, i: nat): (j: nat)
    requires i <= |s|
    ensures i <= j <= |s|
    ensures forall k :: i <= k < j ==> IsDigit(s[k])
    ensures j < |s| ==> !IsDigit(s[j])
    decreases |s| - i
  {
    if i < |s| && IsDigit(s[i]) then DigitRunEnd(s, i + 1) else i
  }

  /** `(\d+)` at index `q`: an opening parenthesis, one or more digits taken
      greedily, and a closing parenthesis. */
  function BoundAt(s: string, q: nat): (r: Option<string>)
    requires q <= |s|
    ensures r.Some? ==> 0 < |r.value| && AllDigits(r.value) && OccursAt(s, "(" + r.value + ")", q)
  {
    if q < |s| && s[q] == '(' then
      var e := DigitRunEnd(s, q + 1);
      if e > q + 1 && e < |s| && s[e] == ')' then
        assert s[q..e + 1] == "(" + s[q + 1..e] + ")";
        Some(s[q + 1..e])
      else None
    else None
  }

  /** Index after the optional ` varying` that follows index `q`. */
  function SkipVarying(s: string, q: nat): (q': nat)
    requires q <= |s|
    ensures q' <= |s|
    ensures StartsWith(s[q..], VaryingWord) ==> q' == q + |VaryingWord|
    ensures !StartsWith(s[q..], VaryingWord) ==> q' == q
  {
    if StartsWith(s[q..], VaryingWord) then q + |VaryingWord| else q
  }

  /** The unanchored length pattern: its match starts at the first
      occurrence of `character`, takes ` varying` when it follows, then the
      parenthesised digits when they follow. */
  function MatchCharacterLength(s: string): (m: LengthMatch)
    ensures m.NoMatch? <==> !Contains(s, CharacterWord)
    ensures m.Matched? ==> FindFrom(s, CharacterWord, 0).Some?
    ensures m.Matched? && m.bound.Some? ==>
      && 0 < |m.bound.value| && AllDigits(m.bound.value)
      && OccursAt(s, "(" + m.bound.value + ")", SkipVarying(s, FindFrom(s, CharacterWord, 0).value + |CharacterWord|))
    ensures m.Matched? && m.bound.None? ==>
      var q := SkipVarying(s, FindFrom(s, CharacterWord, 0).value + |CharacterWord|);
      forall d :: 0 < |d| && AllDigits(d) ==> !OccursAt(s, "(" + d + ")", q)
  {
    match FindFrom(s, CharacterWord, 0)
    case None => NoMatch
    case Some(p) =>
      var q' := SkipVarying(s, p + |CharacterWord|);
      var b := BoundAt(s, q');
      if b.Some? then
        assert OccursAt(s, "(" + b.value + ")", q');
        Matched(b)
      else
        NoBoundAt(s, q');
        Matched(b)
  }

  /** Where `(\d+)` does not match, no parenthesised digits start. */
  lemma NoBoundAt(s: string, q: nat)
    requires q <= |s| && BoundAt(s, q).None?
    ensures forall d :: 0 < |d| && AllDigits(d) ==> !OccursAt(s, "(" + d + ")", q)
  {
    forall d | 0 < |d| && AllDigits(d) && OccursAt(s, "(" + d + ")", q) ensures false {
      assert s[q..][..|d| + 2] == s[q..q + |d| + 2];
      BoundAtDigits(s, q, d);
    }
  }

  /** The first occurrence of `character` sits right after a prefix with no `c`. */
  lemma FindAfterPrefix(prefix: string, s: string)
    requires 'c' !in prefix
    requires StartsWith(s, prefix + CharacterWord)
    ensures FindFrom(s, CharacterWord, 0) == Some(|prefix|)
  {
    assert s[|prefix|..|prefix| + 9] == CharacterWord;
    assert OccursAt(s, CharacterWord, |prefix|);
    var r := FindFrom(s, CharacterWord, 0);
    assert r.Some? && r.value <= |prefix|;
    assert s[r.value..r.value + 9][0] == 'c';
    assert forall i :: 0 <= i < |prefix| ==> s[i] == prefix[i];
  }

  /** Where the match continues after `character` followed by `v + tail`. */
  lemma SkipVaryingAt(s: string, q: nat, varying: bool, tail: string)
    requires q <= |s|
    requires s[q..] == (if varying then VaryingWord else "") + tail
    requires !varying ==> |tail| == 0 || (tail[0] != ' ')
    ensures SkipVarying(s, q) == q + (if varying then |VaryingWord| else 0)
  {
    if varying {
      assert s[q..][..8] == VaryingWord;
    } else if |tail| > 0 {
      assert s[q..][0] == tail[0];
    }
  }

  /** Parenthesised digits at `q` are the bound. */
  lemma BoundAtDigits(s: string, q: nat, digits: string)
    requires q <= |s|
    requires 0 < |digits| && AllDigits(digits)
    requires StartsWith(s[q..], "(" + digits + ")")
    ensures BoundAt(s, q) == Some(digits)
  {
    var e := q + 1 + |digits|;
    assert s[q..][..|digits| + 2] == "(" + digits + ")";
    assert s[q] == '(';
    assert s[e] == ')';
    assert forall k :: q + 1 <= k < e ==> s[k] == digits[k - q - 1];
    assert s[q + 1..e] == digits;
  }

  /** A declared bound such as `character varying(50)` or `character(8)` is
      found and its digits are the match group. */
  lemma DeclaredLength(prefix: string, varying: bool, digits: string, rest: string)
    requires 'c' !in prefix
    requires 0 < |digits| && AllDigits(digits)
    ensures MatchCharacterLength(prefix + CharacterWord + (if varying then VaryingWord else "") + "(" + digits + ")" + rest)
         == Matched(Some(digits))
  {
    var v := if varying then VaryingWord else "";
    var bound := "(" + digits + ")";
    var s := (prefix + CharacterWord) + (v + (bound + rest));
    assert s == prefix + CharacterWord + v + "(" + digits + ")" + rest;
    assert s[..|prefix| + 9] == prefix + CharacterWord;
    FindAfterPrefix(prefix, s);
    var q := |prefix| + 9;
    assert s[q..] == v + (bound + rest);
    SkipVaryingAt(s, q, varying, bound + rest);
    var q' := q + |v|;
    assert s[q'..] == bound + rest;
    BoundAtDigits(s, q', digits);
  }

  /** Without a bound (`character varying`), the match has no digit group. */
  lemma UnboundedLength(prefix: string, varying: bool, rest: string)
    requires 'c' !in prefix
    requires |rest| == 0 || (rest[0] != '(' && rest[0] != ' ')
    ensures MatchCharacterLength(prefix + CharacterWord + (if varying then VaryingWord else "") + rest)
         == Matched(None)
  {
    var v := if varying then VaryingWord else "";
    var s := (prefix + CharacterWord) + (v + rest);
    assert s == prefix + CharacterWord + v + rest;
    assert s[..|prefix| + 9] == prefix + CharacterWord;
    FindAfterPrefix(prefix, s);
    var q := |prefix| + 9;
    assert s[q..] == v + rest;
    SkipVaryingAt(s, q, varying, rest);
    var q' := q + |v|;
    assert s[q'..] == rest;
    if |rest| > 0 {
      assert s[q'] == rest[0];
    }
  }

  /** LENGTH: for character types, the declared bound, null when the type is
      unbounded, and the row's own length when the pattern does not match;
      every other type keeps the row's length. */
  function ColumnLength(row: CatalogRow): (len: Option<int>)
    ensures !IsCharacterType(row.typname) ==> len == row.attlen
    ensures IsCharacterType(row.typname) && MatchCharacterLength(row.completeType).NoMatch? ==> len == row.attlen
    ensures IsCharacterType(row.typname) && MatchCharacterLength(row.completeType) == Matched(None) ==> len.None?
    ensures IsCharacterType(row.typname) && MatchCharacterLength(row.completeType).Matched? ==>
      forall d :: MatchCharacterLength(row.completeType) == Matched(Some(d)) ==> len == Some(DigitsValue(d))
  {
    if IsCharacterType(row.typname) then
      match MatchCharacterLength(row.completeType)
      case NoMatch => row.attlen
      case Matched(None) => None
      case Matched(Some(d)) => Some(DigitsValue(d))
    else row.attlen
  }

  /** `varchar(n)` reports LENGTH n. */
  lemma VarcharLength(row: CatalogRow, n: nat)
    requires IsCharacterType(row.typname)
    requires row.completeType == "character varying(" + NatToText(n) + ")"
    ensures ColumnLength(row) == Some(n)
  {
    assert row.completeType == "" + CharacterWord + VaryingWord + "(" + NatToText(n) + ")" + "";
    DeclaredLength("", true, NatToText(n), "");
    DigitsValueOfNatToText(n);
  }

  /** `char(n)`, whose full type reads `character(n)`, reports LENGTH n. */
  lemma BpcharLength(row: CatalogRow, n: nat)
    requires IsCharacterType(row.typname)
    requires row.completeType == "character(" + NatToText(n) + ")"
    ensures ColumnLength(row) == Some(n)
  {
    assert row.completeType == "" + CharacterWord + "" + "(" + NatToText(n) + ")" + "";
    DeclaredLength("", false, NatToText(n), "");
    DigitsValueOfNatToText(n);
  }

  /** An unbounded `character varying` reports a null LENGTH. */
  lemma UnboundedVarcharLength(row: CatalogRow)
    requires IsCharacterType(row.typname)
    requires row.completeType == "character varying"
    ensures ColumnLength(row) == None
  {
    assert row.completeType == "" + CharacterWord + VaryingWord + "";
    UnboundedLength("", true, "");
  }

  const VaryingCast: string := "'::character varying"
  const BpcharCast: string := "'::bpchar"

  /** The four subjects `/^'(.*?)'::(?:character varying|bpchar)$/` accepts
      with group `g`; PCRE's `$` also matches before one final newline. */
  predicate IsCastLiteral(s: string, g: string) {
    || s == "'" + g + VaryingCast
    || s == "'" + g + BpcharCast
    || s == "'" + g + VaryingCast + "\n"
    || s == "'" + g + BpcharCast + "\n"
  }

  function DropFinalNewline(s: string): (t: string)
    ensures s == t || s == t + "\n"
  {
    if |s| > 0 && s[|s| - 1] == '\n' then s[..|s| - 1] else s
  }

  lemma QuotedSplit(body: string, cast: string)
    requires 1 + |cast| <= |body| && body[0] == '\'' && EndsWith(body, cast)
    ensures body == "'" + body[1..|body| - |cast|] + cast
  {
    assert body == [body[0]] + body[1..|body| - |cast|] + body[|body| - |cast|..];
  }

  /** The default-literal pattern: the text between the opening quote and
      the closing `'::character varying` or `'::bpchar`, with no newline in
      it (`.` does not match one). */
  function StripLiteralCast(s: string): (r: Option<string>)
    ensures r.Some? ==> '\n' !in r.value && IsCastLiteral(s, r.value)
  {
    var body := DropFinalNewline(s);
    var cast := if EndsWith(body, VaryingCast) then VaryingCast else BpcharCast;
    if 1 + |cast| <= |body| && body[0] == '\'' && EndsWith(body, cast) then
      var inner := body[1..|body| - |cast|];
      QuotedSplit(body, cast);
      if '\n' in inner then None else Some(inner)
    else None
  }

  /** Conversely, every such literal is stripped to its group. */
  lemma StripCastLiteral(g: string, varying: bool, newline: bool)
    requires '\n' !in g
    ensures StripLiteralCast("'" + g + (if varying then VaryingCast else BpcharCast) + (if newline then "\n" else ""))
         == Some(g)
  {
    var cast := if varying then VaryingCast else BpcharCast;
    var body := "'" + g + cast;
    var s := body + (if newline then "\n" else "");
    assert DropFinalNewline(s) == body by {
      if newline {
        assert s[..|s| - 1] == body;
      } else {
        assert s == body;
        assert s[|s| - 1] == cast[|cast| - 1];
      }
    }
    assert body[|body| - |cast|..] == cast;
    if !varying {
      assert body[|body| - 1] == 'r';
      assert VaryingCast[|VaryingCast| - 1] == 'g';
      assert !EndsWith(body, VaryingCast);
    }
    assert body[1..|body| - |cast|] == g;
  }

  /** Whichever of the four forms a cast literal takes, it is stripped to
      its group. */
  lemma StripsEveryCastLiteral(s: string, g: string)
    requires '\n' !in g && IsCastLiteral(s, g)
    ensures StripLiteralCast(s) == Some(g)
  {
    if s == "'" + g + VaryingCast {
      StripCastLiteral(g, true, false);
    } else if s == "'" + g + BpcharCast {
      StripCastLiteral(g, false, false);
    } else if s == "'" + g + VaryingCast + "\n" {
      StripCastLiteral(g, true, true);
    } else {
      StripCastLiteral(g, false, true);
    }
  }

  /** DEFAULT: a character-type default written as a cast literal loses its
      quotes and cast; every other default is kept as is. */
  function ColumnDefault(row: CatalogRow): (d: Option<string>)
    ensures !IsCharacterType(row.typname) || row.defaultValue.None? ==> d == row.defaultValue
    ensures d != row.defaultValue ==>
      row.defaultValue.Some? && d.Some? && '\n' !in d.value && IsCastLiteral(row.defaultValue.value, d.value)
    ensures IsCharacterType(row.typname) && row.defaultValue.Some? ==>
      forall g :: '\n' !in g && IsCastLiteral(row.defaultValue.value, g) ==> d == Some(g)
  {
    if IsCharacterType(row.typname) && row.defaultValue.Some? then
      var s := row.defaultValue.value;
      assert forall g :: '\n' !in g && IsCastLiteral(s, g) ==> StripLiteralCast(s) == Some(g) by {
        forall g | '\n' !in g && IsCastLiteral(s, g) ensures StripLiteralCast(s) == Some(g) {
          StripsEveryCastLiteral(s, g);
        }
      }
      match StripLiteralCast(s)
      case Some(g) => Some(g)
      case None => row.defaultValue
    else row.defaultValue
  }

  /** PRIMARY_POSITION: one past the index of the column's number among the
      comma-separated key columns; a miss reads as `false + 1`, that is 1. */
  function PrimaryPosition(attnum: int, conkey: Option<string>): (pos: int)
    ensures 1 <= pos
  {
    var keys := Split(if conkey.Some? then conkey.value else "", ',');
    match IndexOf(keys, IntToText(attnum))
    case None => 1
    case Some(i) => i + 1
  }

  /** The key-list text PostgreSQL's `ARRAY_TO_STRING(conkey, ',')` produces. */
  function KeyListText(attnums: seq<int>): string {
    Join(",", seq(|attnums|, i requires 0 <= i < |attnums| => IntToText(attnums[i])))
  }

  /** Positions follow the order of the constraint's key list, starting at 1. */
  lemma KeyListPosition(attnums: seq<int>, k: nat)
    requires k < |attnums|
    requires forall i, j :: 0 <= i < j < |attnums| ==> attnums[i] != attnums[j]
    ensures PrimaryPosition(attnums[k], Some(KeyListText(attnums))) == k + 1
  {
    var texts := seq(|attnums|, i requires 0 <= i < |attnums| => IntToText(attnums[i]));
    forall i | 0 <= i < |texts| ensures ',' !in texts[i] {
    }
    SplitJoin(texts, ',');
    assert Split(KeyListText(attnums), ',') == texts;
    var r := IndexOf(texts, IntToText(attnums[k]));
    assert texts[k] == IntToText(attnums[k]);
    var i := r.value;
    IntToTextInjective(attnums[i], attnums[k]);
  }

  /** The descriptor of one catalog row; names pass through `fold`. */
  function DescribeColumn(row: CatalogRow, fold: string -> string): (d: ColumnDescriptor)
    ensures d.schemaName == fold(row.nspname) && d.tableName == fold(row.relname)
    ensures d.columnName == fold(row.colname) && d.columnPosition == row.attnum && d.dataType == row.typname
    ensures d.nullable <==> row.notnull != "t"
    ensures d.primary <==> row.contype == Some("p")
    ensures d.primary ==> d.primaryPosition == Some(PrimaryPosition(row.attnum, row.conkey))
    ensures !d.primary ==> d.primaryPosition.None? && !d.identity
    ensures d.identity <==> d.primary && row.defaultValue.Some? && StartsWith(row.defaultValue.value, "nextval")
    ensures d.length == ColumnLength(row) && d.defaultValue == ColumnDefault(row)
  {
    var primary := row.contype == Some("p");
    ColumnDescriptor(
      schemaName := fold(row.nspname),
      tableName := fold(row.relname),
      columnName := fold(row.colname),
      columnPosition := row.attnum,
      dataType := row.typname,
      defaultValue := ColumnDefault(row),
      nullable := row.notnull != "t",
      length := ColumnLength(row),
      primary := primary,
      primaryPosition := if primary then Some(PrimaryPosition(row.attnum, row.conkey)) else None,
      identity := primary && row.defaultValue.Some? && StartsWith(row.defaultValue.value, "nextval"))
  }

  function FoldedNames(rows: seq<CatalogRow>, fold: string -> string): set<string> {
    set i | 0 <= i < |rows| :: fold(rows[i].colname)
  }

  /** `describeTable`'s result: descriptors keyed by folded column name, in
      row order; a later row with the same folded name overwrites in place. */
  function DescribeTable(rows: seq<CatalogRow>, fold: string -> string): (desc: seq<(string, ColumnDescriptor)>)
    ensures UniqueKeys(desc)
    ensures KeySet(desc) == FoldedNames(rows, fold)
    ensures |desc| <= |rows|
  {
    if |rows| == 0 then []
    else
      var prev := DescribeTable(rows[..|rows| - 1], fold);
      var last := rows[|rows| - 1];
      PutUnique(prev, fold(last.colname), DescribeColumn(last, fold));
      assert FoldedNames(rows, fold) == FoldedNames(rows[..|rows| - 1], fold) + {fold(last.colname)} by {
        forall x | x in FoldedNames(rows, fold)
          ensures x in FoldedNames(rows[..|rows| - 1], fold) + {fold(last.colname)}
        {
          var i :| 0 <= i < |rows| && fold(rows[i].colname) == x;
          if i < |rows| - 1 { assert rows[..|rows| - 1][i] == rows[i]; }
        }
      }
      Put(prev, fold(last.colname), DescribeColumn(last, fold))
  }

  /** Every descriptor of the result is the descriptor of some row, under
      that row's folded name: assignment never makes up an entry. */
  lemma {:induction false} DescribeTableEntries(rows: seq<CatalogRow>, fold: string -> string)
    ensures forall k :: 0 <= k < |DescribeTable(rows, fold)| ==>
      exists i :: 0 <= i < |rows| && DescribeTable(rows, fold)[k] == (fold(rows[i].colname), DescribeColumn(rows[i], fold))
  {
    if |rows| > 0 {
      var init := rows[..|rows| - 1];
      var last := rows[|rows| - 1];
      var prev := DescribeTable(init, fold);
      var desc := DescribeTable(rows, fold);
      DescribeTableEntries(init, fold);
      assert desc == Put(prev, fold(last.colname), DescribeColumn(last, fold));
      forall k | 0 <= k < |desc|
        ensures exists i :: 0 <= i < |rows| && desc[k] == (fold(rows[i].colname), DescribeColumn(rows[i], fold))
      {
        if desc[k] == (fold(last.colname), DescribeColumn(last, fold)) {
          assert rows[|rows| - 1] == last;
        } else {
          assert k < |prev| && desc[k] == prev[k];
          var i :| 0 <= i < |init| && prev[k] == (fold(init[i].colname), DescribeColumn(init[i], fold));
          assert init[i] == rows[i];
        }
      }
    } else {
      assert DescribeTable(rows, fold) == [];
    }
  }

  /** No two rows fold to the same column name. */
  predicate DistinctFolded(rows: seq<CatalogRow>, fold: string -> string) {
    forall i, j :: 0 <= i < j < |rows| ==> fold(rows[i].colname) != fold(rows[j].colname)
  }

  /** Dropping the last row keeps the names distinct, and the last name is new to the rest. */
  lemma DistinctFoldedInit(rows: seq<CatalogRow>, fold: string -> string)
    requires 0 < |rows| && DistinctFolded(rows, fold)
    ensures DistinctFolded(rows[..|rows| - 1], fold)
    ensures fold(rows[|rows| - 1].colname) !in FoldedNames(rows[..|rows| - 1], fold)
  {
    var init := rows[..|rows| - 1];
    forall i, j | 0 <= i < j < |init| ensures fold(init[i].colname) != fold(init[j].colname) {
      assert init[i] == rows[i] && init[j] == rows[j];
    }
    forall i | 0 <= i < |init| ensures fold(init[i].colname) != fold(rows[|rows| - 1].colname) {
      assert init[i] == rows[i];
    }
  }

  /** With one row per column and distinct folded names, the result holds
      exactly one descriptor per row, in row order. */
  lemma {:induction false} DescribeTableOnePerRow(rows: seq<CatalogRow>, fold: string -> string)
    requires DistinctFolded(rows, fold)
    ensures |DescribeTable(rows, fold)| == |rows|
    ensures forall i :: 0 <= i < |rows| ==>
      DescribeTable(rows, fold)[i] == (fold(rows[i].colname), DescribeColumn(rows[i], fold))
  {
    if |rows| > 0 {
      var init := rows[..|rows| - 1];
      var last := rows[|rows| - 1];
      DistinctFoldedInit(rows, fold);
      DescribeTableOnePerRow(init, fold);
      var prev := DescribeTable(init, fold);
      var entry := (fold(last.colname), DescribeColumn(last, fold));
      assert DescribeTable(rows, fold) == prev + [entry];
      forall i | 0 <= i < |init|
        ensures DescribeTable(rows, fold)[i] == (fold(rows[i].colname), DescribeColumn(rows[i], fold))
      {
        assert init[i] == rows[i];
      }
    }
  }

  /** Each row whose folded name no later row repeats can be looked up by it. */
  lemma {:induction false} DescribeTableLookup(rows: seq<CatalogRow>, fold: string -> string, i: nat)
    requires i < |rows|
    requires forall j :: i < j < |rows| ==> fold(rows[j].colname) != fold(rows[i].colname)
    ensures Lookup(DescribeTable(rows, fold), fold(rows[i].colname)) == Some(DescribeColumn(rows[i], fold))
  {
    var init := rows[..|rows| - 1];
    var last := rows[|rows| - 1];
    var prev := DescribeTable(init, fold);
    PutUnique(prev, fold(last.colname), DescribeColumn(last, fold));
    if i < |rows| - 1 {
      assert init[i] == rows[i];
      forall j | i < j < |init| ensures fold(init[j].colname) != fold(init[i].colname) {
        assert init[j] == rows[j];
      }
      DescribeTableLookup(init, fold, i);
      assert fold(rows[i].colname) in KeySet(prev) by {
        assert fold(init[i].colname) in FoldedNames(init, fold);
      }
    }
  }

  /** The first descriptor flagged PRIMARY, in result order. */
  function FirstPrimary(desc: seq<(string, ColumnDescriptor)>): (r: Option<nat>)
    ensures r.Some? ==> r.value < |desc| && desc[r.value].1.primary
    ensures r.Some? ==> forall j :: 0 <= j < r.value ==> !desc[j].1.primary
    ensures r.None? ==> forall j :: 0 <= j < |desc| ==> !desc[j].1.primary
  {
    if |desc| == 0 then None
    else if desc[0].1.primary then Some(0)
    else
      match FirstPrimary(desc[1..])
      case None => None
      case Some(k) => Some(k + 1)
  }
}
