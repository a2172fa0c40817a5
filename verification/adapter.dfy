/** `Zend_Db_Adapter_Pgsql`: the string and record logic around the native
    client calls. The adapter's own state is the id the last insert returned
    and its fetch mode; the client calls are inputs (the catalog rows a
    `describeTable` query returns, the `backend` that runs a query, the row
    a fetch reads), and `Env` carries the collaborators the adapter calls
    but does not define. */
module PgsqlAdapter {
  import opened Options
  import opened Strings
  import opened Php
  import opened ZendDb
  import opened Catalog
  import Placeholders
  import PgsqlStatement

  datatype Adapter = Adapter(lastid: Value, fetchMode: int)

  // ---------------------------------------------------------------------
  // Quoting

  /** A text as a single-quoted SQL literal, escaped by the connection. */
  function QuoteText(s: string, env: Env): (q: string)
    ensures |q| == |env.escapeString(s)| + 2
    ensures q[0] == '\'' && q[|q| - 1] == '\''
    ensures q[1..|q| - 1] == env.escapeString(s)
  {
    "'" + env.escapeString(s) + "'"
  }

  /** `_quote`: integers and floats come back as they are; every other value
      is turned into text and returned as an escaped, quoted literal. */
  function Quote(v: Value, env: Env): (r: Value)
    ensures v.Int? || v.Float? ==> r == v
    ensures !(v.Int? || v.Float?) ==> r.Str? && r.s == QuoteText(ToText(v, env.floatText), env)
  {
    if v.Int? || v.Float? then v else Str(QuoteText(ToText(v, env.floatText), env))
  }

  /** The adapter and the statement quote values differently: both turn a
      string into the same escaped literal, but the statement quotes integers
      (the adapter passes them through) and renders null as `NULL` (the
      adapter as an empty quoted string). */
  lemma QuoteVersusStatementEscape(v: Value, env: Env)
    ensures v.Str? ==> Quote(v, env) == Str(PgsqlStatement.EscapeParam(v, env))
    ensures v.Int? ==>
      && Quote(v, env) == v
      && PgsqlStatement.EscapeParam(v, env) == QuoteText(IntToText(v.i), env)
    ensures v.Null? ==>
      && Quote(v, env) == Str(QuoteText("", env))
      && PgsqlStatement.EscapeParam(v, env) == "NULL"
      && Quote(v, env) != Str(PgsqlStatement.EscapeParam(v, env))
  {
    if v.Null? {
      assert QuoteText("", env)[0] != "NULL"[0];
    }
  }

  // ---------------------------------------------------------------------
  // Statements

  /** `prepare`: a new statement holding the SQL text as it is (an empty
      text included) and the adapter's current fetch mode, with no result
      and no bound parameters. */
  function PrepareStatement(a: Adapter, sql: string): (st: PgsqlStatement.Statement)
    ensures st.preparedSql == sql && st.fetchMode == a.fetchMode
    ensures st.result.NoResult? && st.columnCount == 0 && st.rowCount == 0 && st.boundParams == []
  {
    PgsqlStatement.Prepare(PgsqlStatement.Fresh(a.fetchMode), sql)
  }

  /** A statement prepared from `""` or `"0"` executes to false without
      sending anything; one prepared from any other text is sent. */
  lemma PreparedFalsyTextNotSent(a: Adapter, sql: string, env: Env, backend: string -> PgsqlStatement.QueryOutcome)
    ensures PgsqlStatement.Execute(PrepareStatement(a, sql), None, env, backend).NotSent?
        <==> (sql == "" || sql == "0")
  {
  }

  /** `getServerVersion`: always null. */
  function ServerVersion(a: Adapter): (version: Option<string>)
    ensures version.None?
  {
    None
  }

  // ---------------------------------------------------------------------
  // Capabilities and fetch mode

  /** `supportsParameters`: positional parameters only. */
  function SupportsParameters(kind: string): (r: bool)
    ensures r <==> kind == "positional"
  {
    kind == "positional"
  }

  /** Positional support is what execution provides: only `?` marks are
      substituted, so the text built from a template with no `?` and no `%`
      is the template, whatever parameters come with it. */
  lemma OnlyPositionalMarksSubstituted(sql: string, params: seq<Value>, env: Env)
    requires '?' !in sql && '%' !in sql
    ensures SupportsParameters("positional") && !SupportsParameters("named")
    ensures PgsqlStatement.QueryText(sql, params, env) == sql
  {
  }

  /** The modes `setFetchMode` accepts. */
  const AcceptedFetchModes: set<int> :=
    {FETCH_LAZY, FETCH_ASSOC, FETCH_NUM, FETCH_BOTH, FETCH_NAMED, FETCH_OBJ}

  /** `setFetchMode`: an accepted mode replaces the current one and nothing
      else; `FETCH_BOUND` and every other mode raise. */
  function SetFetchMode(a: Adapter, mode: int): (r: Result<Adapter>)
    ensures r.Ok? <==> mode in AcceptedFetchModes
    ensures r.Ok? ==> r.value.fetchMode == mode && r.value.lastid == a.lastid
    ensures mode == FETCH_BOUND ==> r == Err(AdapterException("FETCH_BOUND is not supported yet"))
    ensures mode != FETCH_BOUND && r.Err? ==>
      r.error == AdapterException("Invalid fetch mode '" + IntToText(mode) + "' specified")
  {
    if mode in AcceptedFetchModes then Ok(a.(fetchMode := mode))
    else if mode == FETCH_BOUND then Err(AdapterException("FETCH_BOUND is not supported yet"))
    else Err(AdapterException("Invalid fetch mode '" + IntToText(mode) + "' specified"))
  }

  /** Setting a mode twice is the same as setting it once, and a rejected
      mode leaves nothing to apply. */
  lemma SetFetchModeIdempotent(a: Adapter, mode: int)
    ensures SetFetchMode(a, mode).Ok? ==>
      SetFetchMode(SetFetchMode(a, mode).value, mode) == SetFetchMode(a, mode)
  {
  }

  /** How the accepted modes fare in the statement's `fetch`: `FETCH_NUM`,
      `FETCH_ASSOC`, `FETCH_BOTH` and `FETCH_OBJ` are dispatched, while
      `FETCH_LAZY` and `FETCH_NAMED` reach its default branch and read no row.
      `FETCH_BOUND`, which `fetch` does handle, is the one the adapter refuses. */
  lemma AcceptedModesInFetch()
    ensures AcceptedFetchModes - {FETCH_LAZY, FETCH_NAMED} <= PgsqlStatement.DispatchedStyles
    ensures FETCH_LAZY !in PgsqlStatement.DispatchedStyles && FETCH_NAMED !in PgsqlStatement.DispatchedStyles
    ensures FETCH_BOUND in PgsqlStatement.DispatchedStyles && FETCH_BOUND !in AcceptedFetchModes
  {
  }

  // ---------------------------------------------------------------------
  // LIMIT

  /** The clause `limit` appends: the count, and the offset only when positive. */
  function LimitClause(count: nat, offset: nat): string
    requires count > 0
  {
    " LIMIT " + NatToText(count) + (if offset > 0 then " OFFSET " + NatToText(offset) else "")
  }

  /** `limit`: both arguments go through `intval`; a count below 1 or a
      negative offset raises with the coerced value in the message. */
  function Limit(sql: string, count: Value, offset: Value): (r: Result<string>)
    ensures r.Ok? <==> IntVal(count) > 0 && IntVal(offset) >= 0
    ensures r.Ok? ==>
      && StartsWith(r.value, sql)
      && r.value == sql + LimitClause(IntVal(count), IntVal(offset))
    ensures IntVal(count) <= 0 ==>
      r == Err(AdapterException("LIMIT argument count=" + IntToText(IntVal(count)) + " is not valid"))
    ensures IntVal(count) > 0 && IntVal(offset) < 0 ==>
      r == Err(AdapterException("LIMIT argument offset=" + IntToText(IntVal(offset)) + " is not valid"))
  {
    var c := IntVal(count);
    if c <= 0 then Err(AdapterException("LIMIT argument count=" + IntToText(c) + " is not valid"))
    else
      var o := IntVal(offset);
      if o < 0 then Err(AdapterException("LIMIT argument offset=" + IntToText(o) + " is not valid"))
      else
        var r := sql + LimitClause(c, o);
        assert r[..|sql|] == sql;
        Ok(r)
  }

  const LimitWord: string := " LIMIT "
  const OffsetWord: string := " OFFSET "

  /** Reads a clause of the shape `limit` appends back into its numbers. */
  function ParseLimitClause(s: string): (r: Option<(nat, nat)>)
  {
    if !StartsWith(s, LimitWord) then None
    else
      var rest := s[|LimitWord|..];
      match IndexOfChar(rest, ' ')
      case None =>
        if 0 < |rest| && AllDigits(rest) then Some((DigitsValue(rest), 0)) else None
      case Some(k) =>
        var digits := rest[..k];
        var tail := rest[k..];
        if 0 < |digits| && AllDigits(digits) && StartsWith(tail, OffsetWord)
          && |OffsetWord| < |tail| && AllDigits(tail[|OffsetWord|..])
        then Some((DigitsValue(digits), DigitsValue(tail[|OffsetWord|..])))
        else None
  }

  /** A decimal rendering holds no space. */
  lemma NoSpaceInDigits(s: string)
    requires AllDigits(s)
    ensures ' ' !in s
  {
    forall i | 0 <= i < |s| ensures s[i] != ' ' {
      assert IsDigit(s[i]);
    }
  }

  /** The clause `limit` writes reads back as the count and offset it was built from. */
  lemma LimitClauseRoundTrip(count: nat, offset: nat)
    requires count > 0
    ensures ParseLimitClause(LimitClause(count, offset)) == Some((count, offset))
  {
    var c := NatToText(count);
    var s := LimitClause(count, offset);
    var more := if offset > 0 then OffsetWord + NatToText(offset) else "";
    assert s == LimitWord + (c + more);
    var rest := s[|LimitWord|..];
    assert s[..|LimitWord|] == LimitWord;
    assert rest == c + more;
    NoSpaceInDigits(c);
    DigitsValueOfNatToText(count);
    if offset > 0 {
      var o := NatToText(offset);
      assert rest == c + (OffsetWord + o);
      var k := IndexOfChar(rest, ' ');
      assert rest[|c|] == ' ';
      assert rest[..|c|] == c;
      assert k == Some(|c|);
      var tail := rest[|c|..];
      assert tail == OffsetWord + o;
      assert tail[..|OffsetWord|] == OffsetWord;
      assert tail[|OffsetWord|..] == o;
      DigitsValueOfNatToText(offset);
    } else {
      assert rest == c;
    }
  }

  /** `intval` makes a decimal string argument act like the integer it spells. */
  lemma LimitAcceptsDecimalText(sql: string, count: Int64, offset: Int64)
    ensures Limit(sql, Str(IntToText(count)), Str(IntToText(offset))) == Limit(sql, Int(count), Int(offset))
  {
    IntValOfIntText(count);
    IntValOfIntText(offset);
  }

  // ---------------------------------------------------------------------
  // Sequences and the last insert id

  /** The sequence `lastInsertId` reads: `table_pk_seq`, or `table_seq` when
      the primary key argument is falsy. */
  function SequenceName(table: string, pk: Value, env: Env): (name: string)
    ensures StartsWith(name, table) && EndsWith(name, "_seq")
    ensures !Truthy(pk) ==> name == table + "_seq"
    ensures Truthy(pk) ==> name == table + "_" + ToText(pk, env.floatText) + "_seq"
  {
    var base := if Truthy(pk) then table + "_" + ToText(pk, env.floatText) else table;
    var name := base + "_seq";
    assert name[..|table|] == table;
    assert name[|name| - 4..] == "_seq";
    name
  }

  /** Without a key, different tables give different sequences. */
  lemma SequenceNameWithoutKeyInjective(t1: string, t2: string, env: Env)
    ensures SequenceName(t1, Null, env) == SequenceName(t2, Null, env) ==> t1 == t2
  {
    if SequenceName(t1, Null, env) == SequenceName(t2, Null, env) {
      assert t1 == SequenceName(t1, Null, env)[..|t1|];
      assert t2 == SequenceName(t2, Null, env)[..|t2|];
    }
  }

  /** With a key the naming convention is ambiguous: table `a_b` with key `c`
      and table `a` with key `b_c` read the same sequence. */
  lemma SequenceNamesCollide(env: Env)
    ensures SequenceName("a_b", Str("c"), env) == SequenceName("a", Str("b_c"), env) == "a_b_c_seq"
  {
  }

  /** `SELECT CURRVAL('...')`, the query `lastSequenceId` runs. */
  function CurrvalSql(sequence: string, env: Env): string {
    "SELECT CURRVAL(" + QuoteText(sequence, env) + ")"
  }

  /** `SELECT NEXTVAL('...')`, the query `nextSequenceId` runs. */
  function NextvalSql(sequence: string, env: Env): string {
    "SELECT NEXTVAL(" + QuoteText(sequence, env) + ")"
  }

  /** A text framed by the same prefix and suffix is recovered from the frame. */
  lemma FramedInjective(prefix: string, a: string, b: string, suffix: string)
    ensures prefix + a + suffix == prefix + b + suffix <==> a == b
  {
    if prefix + a + suffix == prefix + b + suffix {
      assert |a| == |b|;
      assert a == (prefix + a + suffix)[|prefix|..|prefix| + |a|];
      assert b == (prefix + b + suffix)[|prefix|..|prefix| + |b|];
    }
  }

  /** `lastSequenceId` and `nextSequenceId` query the same sequences:
      either query names two sequences alike exactly when the connection
      escapes their names alike, and no `CURRVAL` query is a `NEXTVAL` one. */
  lemma SequenceQueriesDetermineName(s1: string, s2: string, env: Env)
    ensures CurrvalSql(s1, env) == CurrvalSql(s2, env) <==> env.escapeString(s1) == env.escapeString(s2)
    ensures NextvalSql(s1, env) == NextvalSql(s2, env) <==> env.escapeString(s1) == env.escapeString(s2)
    ensures CurrvalSql(s1, env) != NextvalSql(s2, env)
  {
    FramedInjective("SELECT CURRVAL('", env.escapeString(s1), env.escapeString(s2), "')");
    FramedInjective("SELECT NEXTVAL('", env.escapeString(s1), env.escapeString(s2), "')");
    assert CurrvalSql(s1, env) == "SELECT CURRVAL('" + env.escapeString(s1) + "')";
    assert CurrvalSql(s2, env) == "SELECT CURRVAL('" + env.escapeString(s2) + "')";
    assert NextvalSql(s1, env) == "SELECT NEXTVAL('" + env.escapeString(s1) + "')";
    assert NextvalSql(s2, env) == "SELECT NEXTVAL('" + env.escapeString(s2) + "')";
    assert CurrvalSql(s1, env)[7] != NextvalSql(s2, env)[7];
  }

  /** Where `lastInsertId` gets its answer: a `CURRVAL` query on the
      sequence, or the id the last insert stored. */
  datatype InsertIdSource = SequenceQuery(sql: string) | StoredId(id: Value)

  /** `lastInsertId`. */
  function LastInsertId(a: Adapter, table: Option<string>, pk: Value, env: Env): (r: InsertIdSource)
    ensures table.None? <==> r.StoredId?
    ensures r.StoredId? ==> r.id == a.lastid
    ensures r.SequenceQuery? ==> r.sql == CurrvalSql(SequenceName(table.value, pk, env), env)
  {
    if table.None? then StoredId(a.lastid)
    else SequenceQuery(CurrvalSql(SequenceName(table.value, pk, env), env))
  }

  // ---------------------------------------------------------------------
  // Primary key

  /** `getPrimaryKeyName`: `oid` for an empty table name or a table without
      a PRIMARY column; otherwise the key, in the describe result, of its
      first PRIMARY descriptor. A failing describe query propagates. */
  function PrimaryKeyName(table: string, catalog: Result<seq<CatalogRow>>, env: Env): (r: Result<string>)
    ensures table == "" ==> r == Ok("oid")
    ensures table != "" && catalog.Err? ==> r == Err(catalog.error)
    ensures table != "" && catalog.Ok? ==> r.Ok?
    ensures table != "" && catalog.Ok? ==>
      var desc := DescribeTable(catalog.value, env.foldCase);
      || (r.value == "oid" && forall j :: 0 <= j < |desc| ==> !desc[j].1.primary)
      || (exists i :: 0 <= i < |desc| && desc[i].0 == r.value && desc[i].1.primary
            && forall j :: 0 <= j < i ==> !desc[j].1.primary)
  {
    if table == "" then Ok("oid")
    else
      match catalog
      case Err(e) => Err(e)
      case Ok(rows) =>
        var desc := DescribeTable(rows, env.foldCase);
        match FirstPrimary(desc)
        case None => Ok("oid")
        case Some(i) =>
          assert 0 <= i < |desc| && desc[i].1.primary;
          Ok(desc[i].0)
  }

  /** For a table whose folded column names are distinct, the key is the
      folded name of the first row of a PRIMARY KEY constraint. */
  lemma PrimaryKeyOfDistinctRows(table: string, rows: seq<CatalogRow>, env: Env, i: nat)
    requires table != "" && DistinctFolded(rows, env.foldCase)
    requires i < |rows| && rows[i].contype == Some("p")
    requires forall j :: 0 <= j < i ==> rows[j].contype != Some("p")
    ensures PrimaryKeyName(table, Ok(rows), env) == Ok(env.foldCase(rows[i].colname))
  {
    var desc := DescribeTable(rows, env.foldCase);
    DescribeTableOnePerRow(rows, env.foldCase);
    assert desc[i] == (env.foldCase(rows[i].colname), DescribeColumn(rows[i], env.foldCase));
    forall j | 0 <= j < i ensures !desc[j].1.primary {
      assert desc[j].1 == DescribeColumn(rows[j], env.foldCase);
    }
    FirstPrimaryAt(desc, i);
  }

  lemma FirstPrimaryAt(desc: seq<(string, ColumnDescriptor)>, i: nat)
    requires i < |desc| && desc[i].1.primary
    requires forall j :: 0 <= j < i ==> !desc[j].1.primary
    ensures FirstPrimary(desc) == Some(i)
  {
  }

  /** A table without a PRIMARY KEY row gets `oid`. */
  lemma PrimaryKeyWithoutPrimaryRow(table: string, rows: seq<CatalogRow>, env: Env)
    requires forall j :: 0 <= j < |rows| ==> rows[j].contype != Some("p")
    ensures PrimaryKeyName(table, Ok(rows), env) == Ok("oid")
  {
    var desc := DescribeTable(rows, env.foldCase);
    DescribeTableEntries(rows, env.foldCase);
    forall k | 0 <= k < |desc| ensures !desc[k].1.primary {
      var i :| 0 <= i < |rows| && desc[k] == (env.foldCase(rows[i].colname), DescribeColumn(rows[i], env.foldCase));
    }
  }

  // ---------------------------------------------------------------------
  // Insert

  /** A value of `insert`'s bind array: a `Zend_Db_Expr`, written into the
      SQL text as it is, or a plain value, sent as a parameter. */
  datatype Binding = Expr(text: string) | Bound(value: Value)

  /** What the VALUES list holds for a binding: the expression, or a `?`. */
  function Slot(b: Binding): string {
    if b.Expr? then b.text else "?"
  }

  /** What ends up in a binding's VALUES position once the statement
      substitutes its parameters. */
  function Literal(b: Binding, env: Env): string {
    if b.Expr? then b.text else PgsqlStatement.EscapeParam(b.value, env)
  }

  function ColumnList(bind: seq<(string, Binding)>, env: Env): (cols: seq<string>)
    ensures |cols| == |bind|
  {
    seq(|bind|, i requires 0 <= i < |bind| => env.quoteIdentifier(bind[i].0))
  }

  function ValueList(bind: seq<(string, Binding)>): (vals: seq<string>)
    ensures |vals| == |bind|
  {
    seq(|bind|, i requires 0 <= i < |bind| => Slot(bind[i].1))
  }

  function Literals(bind: seq<(string, Binding)>, env: Env): (lits: seq<string>)
    ensures |lits| == |bind|
  {
    seq(|bind|, i requires 0 <= i < |bind| => Literal(bind[i].1, env))
  }

  /** `array_values($bind)` once the expressions are unset: the plain values, in order. */
  function InsertParams(bind: seq<(string, Binding)>): (params: seq<Value>)
    ensures |params| <= |bind|
  {
    if |bind| == 0 then []
    else (if bind[0].1.Bound? then [bind[0].1.value] else []) + InsertParams(bind[1..])
  }

  /** The text before the VALUES list. */
  function InsertHead(table: string, bind: seq<(string, Binding)>, env: Env): string {
    "INSERT INTO " + env.quoteIdentifier(table) + " (" + Join(", ", ColumnList(bind, env)) + ") VALUES ("
  }

  /** The text after the VALUES list. */
  function InsertTail(pkey: string): string {
    ") RETURNING " + pkey
  }

  /** The statement `insert` prepares. */
  function InsertSql(table: string, bind: seq<(string, Binding)>, pkey: string, env: Env): (sql: string)
    ensures StrTruthy(sql)
  {
    var sql := InsertHead(table, bind, env) + Join(", ", ValueList(bind)) + InsertTail(pkey);
    assert |sql| > 1;
    sql
  }

  /** The only `?` in the statement are the VALUES slots of plain values:
      none in the quoted table and column names, the key or the expressions. */
  predicate MarksOnlyInSlots(table: string, bind: seq<(string, Binding)>, pkey: string, env: Env) {
    && '?' !in InsertHead(table, bind, env)
    && '?' !in pkey
    && forall i :: 0 <= i < |bind| && bind[i].1.Expr? ==> '?' !in bind[i].1.text
  }

  lemma TokensCons(v: Value, params: seq<Value>, env: Env)
    ensures PgsqlStatement.Tokens([v] + params, env)
         == [PgsqlStatement.EscapeParam(v, env)] + PgsqlStatement.Tokens(params, env)
  {
    var l := PgsqlStatement.Tokens([v] + params, env);
    var r := [PgsqlStatement.EscapeParam(v, env)] + PgsqlStatement.Tokens(params, env);
    forall i | 0 <= i < |l| ensures l[i] == r[i] {
      if i > 0 { assert ([v] + params)[i] == params[i - 1]; }
    }
  }

  /** The VALUES list followed by `?`-free text: it holds one `?` per plain
      value, and substitution puts each binding's own literal in its slot. */
  lemma {:induction false} SubstituteSlots(bind: seq<(string, Binding)>, tail: string, env: Env)
    requires forall i :: 0 <= i < |bind| && bind[i].1.Expr? ==> '?' !in bind[i].1.text
    requires '?' !in tail
    ensures CountChar(Join(", ", ValueList(bind)) + tail, '?') == |InsertParams(bind)|
    ensures Placeholders.Substitute(Join(", ", ValueList(bind)) + tail, PgsqlStatement.Tokens(InsertParams(bind), env))
         == Join(", ", Literals(bind, env)) + tail
    decreases |bind|
  {
    if |bind| == 0 {
      assert Join(", ", ValueList(bind)) + tail == tail;
      assert Join(", ", Literals(bind, env)) + tail == tail;
    } else {
      var rest := bind[1..];
      var b := bind[0].1;
      assert ValueList(bind)[1..] == ValueList(rest);
      assert Literals(bind, env)[1..] == Literals(rest, env);
      var restTokens := PgsqlStatement.Tokens(InsertParams(rest), env);
      var r := if |bind| == 1 then tail else ", " + (Join(", ", ValueList(rest)) + tail);
      var rl := if |bind| == 1 then tail else ", " + (Join(", ", Literals(rest, env)) + tail);
      SubstituteSlotsRest(bind, tail, env);
      assert CountChar(r, '?') == |InsertParams(rest)|;
      assert Placeholders.Substitute(r, restTokens) == rl;
      JoinHead(", ", ValueList(bind), tail);
      JoinHead(", ", Literals(bind, env), tail);
      assert Join(", ", ValueList(bind)) + tail == Slot(b) + r;
      assert Join(", ", Literals(bind, env)) + tail == Literal(b, env) + rl;
      if b.Bound? {
        assert InsertParams(bind) == [b.value] + InsertParams(rest);
        TokensCons(b.value, InsertParams(rest), env);
        Placeholders.SubstituteMark(r, PgsqlStatement.Tokens(InsertParams(bind), env));
        assert PgsqlStatement.Tokens(InsertParams(bind), env)[1..] == restTokens;
      } else {
        assert InsertParams(bind) == InsertParams(rest);
        Placeholders.SubstitutePrefix(b.text, r, restTokens);
      }
    }
  }

  /** The part of `SubstituteSlots` after the first slot. */
  lemma {:induction false} SubstituteSlotsRest(bind: seq<(string, Binding)>, tail: string, env: Env)
    requires 0 < |bind|
    requires forall i :: 0 <= i < |bind| && bind[i].1.Expr? ==> '?' !in bind[i].1.text
    requires '?' !in tail
    ensures var rest := bind[1..];
      var r := if |bind| == 1 then tail else ", " + (Join(", ", ValueList(rest)) + tail);
      && CountChar(r, '?') == |InsertParams(rest)|
      && Placeholders.Substitute(r, PgsqlStatement.Tokens(InsertParams(rest), env))
         == if |bind| == 1 then tail else ", " + (Join(", ", Literals(rest, env)) + tail)
    decreases |bind|, 0
  {
    var rest := bind[1..];
    if |bind| > 1 {
      forall i | 0 <= i < |rest| && rest[i].1.Expr? ensures '?' !in rest[i].1.text {
        assert rest[i] == bind[i + 1];
      }
      SubstituteSlots(rest, tail, env);
      Placeholders.SubstitutePrefix(", ", Join(", ", ValueList(rest)) + tail, PgsqlStatement.Tokens(InsertParams(rest), env));
    }
  }

  /** The text `insert` sends: the statement with each plain value's escaped
      literal in its VALUES slot and each expression where it was written;
      the statement holds exactly one `?` per plain value. */
  lemma InsertQueryText(table: string, bind: seq<(string, Binding)>, pkey: string, env: Env)
    requires MarksOnlyInSlots(table, bind, pkey, env)
    ensures CountChar(InsertSql(table, bind, pkey, env), '?') == |InsertParams(bind)|
    ensures '%' !in InsertSql(table, bind, pkey, env) ==>
      PgsqlStatement.QueryText(InsertSql(table, bind, pkey, env), InsertParams(bind), env)
      == InsertHead(table, bind, env) + Join(", ", Literals(bind, env)) + InsertTail(pkey)
  {
    var head := InsertHead(table, bind, env);
    var tail := InsertTail(pkey);
    var vals := Join(", ", ValueList(bind));
    var lits := Join(", ", Literals(bind, env));
    var tokens := PgsqlStatement.Tokens(InsertParams(bind), env);
    assert '?' !in tail;
    ConcatAssoc(head, vals, tail);
    ConcatAssoc(head, lits, tail);
    SubstituteSlots(bind, tail, env);
    Placeholders.SubstitutePrefix(head, vals + tail, tokens);
  }

  /** The VALUES list holds one `?` per plain value, so the parameter list
      `insert` passes is exactly as long as the list's placeholders. */
  lemma InsertMarksMatchParams(bind: seq<(string, Binding)>)
    requires forall i :: 0 <= i < |bind| && bind[i].1.Expr? ==> '?' !in bind[i].1.text
    ensures CountChar(Join(", ", ValueList(bind)), '?') == |InsertParams(bind)|
  {
    var env := Env(s => s, x => "", s => s, s => s);
    SubstituteSlots(bind, "", env);
    assert Join(", ", ValueList(bind)) + "" == Join(", ", ValueList(bind));
  }

  /** Text that neither holds a placeholder nor a `vsprintf` directive. */
  predicate Plain(s: string) {
    '?' !in s && '%' !in s
  }

  /** The fixed text of the statement (the quoted table and column names,
      the expressions and the key) is plain. */
  predicate PiecesPlain(table: string, bind: seq<(string, Binding)>, pkey: string, env: Env) {
    && Plain(InsertHead(table, bind, env))
    && Plain(pkey)
    && forall i :: 0 <= i < |bind| && bind[i].1.Expr? ==> Plain(bind[i].1.text)
  }

  /** The VALUES list holds at least one `?` per plain value, and more as
      soon as an expression holds one. */
  lemma {:induction false} SlotMarks(bind: seq<(string, Binding)>)
    ensures CountChar(Join(", ", ValueList(bind)), '?') >= |InsertParams(bind)|
    ensures forall i :: 0 <= i < |bind| && bind[i].1.Expr? && '?' in bind[i].1.text ==>
      CountChar(Join(", ", ValueList(bind)), '?') > |InsertParams(bind)|
    decreases |bind|
  {
    if |bind| > 0 {
      var rest := bind[1..];
      assert ValueList(bind)[0] == Slot(bind[0].1);
      assert ValueList(bind)[1..] == ValueList(rest);
      assert InsertParams(bind) == (if bind[0].1.Bound? then [bind[0].1.value] else []) + InsertParams(rest);
      SlotMarks(rest);
      if |bind| > 1 {
        CountCharJoin('?', ", ", ValueList(bind));
      } else {
        assert InsertParams(rest) == [];
      }
      forall i | 0 < i < |bind| ensures bind[i] == rest[i - 1] {
      }
    }
  }

  /** The text after the VALUES list adds no `?` or `%` beyond the key's. */
  lemma InsertTailParts(pkey: string)
    ensures CountChar(InsertTail(pkey), '?') == CountChar(pkey, '?')
    ensures '%' in InsertTail(pkey) <==> '%' in pkey
  {
    assert '?' !in ") RETURNING " && '%' !in ") RETURNING ";
    CountCharAppend(") RETURNING ", pkey, '?');
  }

  /** The statement's `?` and `%` are those of its head, its VALUES list and its key. */
  lemma InsertSqlParts(table: string, bind: seq<(string, Binding)>, pkey: string, env: Env)
    ensures var sql := InsertSql(table, bind, pkey, env);
      var vals := Join(", ", ValueList(bind));
      && CountChar(sql, '?') == CountChar(InsertHead(table, bind, env), '?') + CountChar(vals, '?') + CountChar(pkey, '?')
      && ('%' in sql <==> '%' in InsertHead(table, bind, env) || '%' in vals || '%' in pkey)
  {
    var head := InsertHead(table, bind, env);
    var vals := Join(", ", ValueList(bind));
    var tail := InsertTail(pkey);
    InsertTailParts(pkey);
    assert InsertSql(table, bind, pkey, env) == (head + vals) + tail;
    CountCharAppend(head + vals, tail, '?');
    CountCharAppend(head, vals, '?');
  }

  /** A `%` in an expression is a `%` in the VALUES list. */
  lemma PercentInValues(bind: seq<(string, Binding)>)
    ensures (forall i :: 0 <= i < |bind| && bind[i].1.Expr? ==> '%' !in bind[i].1.text)
        <==> '%' !in Join(", ", ValueList(bind))
  {
    if forall i :: 0 <= i < |bind| && bind[i].1.Expr? ==> '%' !in bind[i].1.text {
      forall i | 0 <= i < |bind| ensures '%' !in ValueList(bind)[i] {
        assert ValueList(bind)[i] == Slot(bind[i].1);
      }
      NotInJoin('%', ", ", ValueList(bind));
    } else {
      forall i | 0 <= i < |bind| && bind[i].1.Expr? && '%' in bind[i].1.text
        ensures '%' in Join(", ", ValueList(bind))
      {
        assert ValueList(bind)[i] == bind[i].1.text;
        InJoin('%', ", ", ValueList(bind), i);
      }
    }
  }

  /** When there are plain values, `vsprintf` is defined on the statement
      `insert` sends exactly when its fixed text is plain: a `%` anywhere or
      a `?` outside the VALUES slots makes it fail. */
  lemma InsertSubstitutionDefined(table: string, bind: seq<(string, Binding)>, pkey: string, env: Env)
    ensures |InsertParams(bind)| > 0 ==>
      (PgsqlStatement.SubstitutionDefined(InsertSql(table, bind, pkey, env), |InsertParams(bind)|)
       <==> PiecesPlain(table, bind, pkey, env))
  {
    InsertSqlParts(table, bind, pkey, env);
    PercentInValues(bind);
    SlotMarks(bind);
    if PiecesPlain(table, bind, pkey, env) {
      InsertQueryText(table, bind, pkey, env);
    }
  }

  /** What `insert` needs of its arguments: `vsprintf` is defined on the
      statement it sends whenever it has parameters to substitute. */
  predicate InsertDefined(table: string, bind: seq<(string, Binding)>, catalog: Result<seq<CatalogRow>>, env: Env) {
    var pkey := PrimaryKeyName(table, catalog, env);
    pkey.Ok? && |InsertParams(bind)| > 0 ==> PiecesPlain(table, bind, pkey.value, env)
  }

  /** `$pkeyres[0]`: the first value of a numbered row, null for anything else. */
  function FirstColumn(o: PgsqlStatement.FetchOutcome): Value {
    if o.Indexed? && |o.values| > 0 then o.values[0] else Null
  }

  /** `insert`: finds the key to return, prepares and executes the statement
      with the plain values, fetches one numbered row and stores its first
      value as the last insert id, which it also returns. `returned` is the
      row the client library reads back. */
  function Insert(a: Adapter, table: string, bind: seq<(string, Binding)>, catalog: Result<seq<CatalogRow>>,
                  env: Env, backend: string -> PgsqlStatement.QueryOutcome,
                  returned: Option<PgsqlStatement.NativeRow>): (r: Result<(Adapter, Value)>)
    requires InsertDefined(table, bind, catalog, env)
    ensures PrimaryKeyName(table, catalog, env).Ok? && |InsertParams(bind)| > 0 ==>
      PgsqlStatement.SubstitutionDefined(InsertSql(table, bind, PrimaryKeyName(table, catalog, env).value, env),
                                         |InsertParams(bind)|)
    ensures PrimaryKeyName(table, catalog, env).Err? ==> r == Err(PrimaryKeyName(table, catalog, env).error)
    ensures PrimaryKeyName(table, catalog, env).Ok? ==>
      var q := PgsqlStatement.QueryText(InsertSql(table, bind, PrimaryKeyName(table, catalog, env).value, env),
                                        InsertParams(bind), env);
      && (r.Ok? <==> backend(q).QuerySucceeded?)
      && (r.Err? ==> r.error == StatementException(
            PgsqlStatement.ExecuteErrorPrefix + PgsqlStatement.FailureText(backend(q)), 1))
    ensures r.Ok? ==> r.value.0 == a.(lastid := r.value.1)
    ensures r.Ok? ==> r.value.1 == if returned.Some? && 0 < |returned.value| then returned.value[0].1 else Null
  {
    match PrimaryKeyName(table, catalog, env)
    case Err(e) => Err(e)
    case Ok(pkey) =>
      InsertSubstitutionDefined(table, bind, pkey, env);
      var st := PrepareStatement(a, InsertSql(table, bind, pkey, env));
      var o := PgsqlStatement.Execute(st, Some(InsertParams(bind)), env, backend);
      if o.Raised? then Err(o.error)
      else
        var id := FirstColumn(PgsqlStatement.Fetch(o.st, Some(FETCH_NUM), returned));
        Ok((a.(lastid := id), id))
  }

  /** After a successful insert, `lastInsertId()` without arguments gives
      back the value the RETURNING clause produced. */
  lemma InsertThenLastInsertId(a: Adapter, table: string, bind: seq<(string, Binding)>,
                               catalog: Result<seq<CatalogRow>>, env: Env,
                               backend: string -> PgsqlStatement.QueryOutcome,
                               returned: Option<PgsqlStatement.NativeRow>, pk: Value)
    requires InsertDefined(table, bind, catalog, env)
    ensures var r := Insert(a, table, bind, catalog, env, backend, returned);
      r.Ok? ==> LastInsertId(r.value.0, None, pk, env) == StoredId(r.value.1)
  {
  }

  /** A worked instance: table `t` with a serial primary key `id` and a
      `varchar(50)` column `name`. Identifiers are double-quoted, escaping
      and case folding change nothing. */
  function ExampleEnv(): Env {
    Env(s => s, x => "", s => "\"" + s + "\"", s => s)
  }

  function ExampleRows(): seq<CatalogRow> {
    [ CatalogRow(1, "public", "t", "id", "int4", -1, "integer",
                 Some("nextval('t_id_seq'::regclass)"), "t", Some(4), Some("p"), Some("1")),
      CatalogRow(2, "public", "t", "name", "varchar", 54, "character varying(50)",
                 None, "f", Some(-1), None, None) ]
  }

  /** The example table's insert returns `id`. */
  lemma ExamplePrimaryKey()
    ensures PrimaryKeyName("t", Ok(ExampleRows()), ExampleEnv()) == Ok("id")
  {
    var rows := ExampleRows();
    assert DistinctFolded(rows, ExampleEnv().foldCase);
    PrimaryKeyOfDistinctRows("t", rows, ExampleEnv(), 0);
  }

  function ExampleBind(): seq<(string, Binding)> {
    [("name", Bound(Str("x")))]
  }

  /** The statement prepared for inserting `name = 'x'` into the example table. */
  lemma ExampleInsertSql()
    ensures InsertSql("t", ExampleBind(), "id", ExampleEnv())
         == "INSERT INTO " + "\"t\"" + " (" + "\"name\"" + ") VALUES (" + "?" + ") RETURNING " + "id"
  {
    var env := ExampleEnv();
    var bind := ExampleBind();
    assert ColumnList(bind, env)[0] == "\"name\"";
    assert ColumnList(bind, env) == ["\"name\""];
    assert ValueList(bind) == ["?"];
  }

  lemma ExamplePieces()
    ensures '%' !in InsertSql("t", ExampleBind(), "id", ExampleEnv())
    ensures InsertHead("t", ExampleBind(), ExampleEnv()) == "INSERT INTO " + "\"t\"" + " (" + "\"name\"" + ") VALUES ("
    ensures Literals(ExampleBind(), ExampleEnv()) == ["'x'"]
    ensures InsertParams(ExampleBind()) == [Str("x")]
  {
    var env := ExampleEnv();
    var bind := ExampleBind();
    ExampleInsertSql();
    assert ColumnList(bind, env)[0] == "\"name\"";
    assert ColumnList(bind, env) == ["\"name\""];
    assert PgsqlStatement.EscapeParam(Str("x"), env) == "'x'";
    assert Literals(bind, env)[0] == "'x'";
  }

  /** ... and the text sent once the value is substituted. */
  lemma ExampleInsertText()
    ensures PgsqlStatement.SubstitutionDefined(InsertSql("t", ExampleBind(), "id", ExampleEnv()), 1)
    ensures PgsqlStatement.QueryText(InsertSql("t", ExampleBind(), "id", ExampleEnv()), [Str("x")], ExampleEnv())
         == "INSERT INTO " + "\"t\"" + " (" + "\"name\"" + ") VALUES (" + "'x'" + ") RETURNING " + "id"
  {
    var env := ExampleEnv();
    var bind := ExampleBind();
    var head := InsertHead("t", bind, env);
    ExamplePieces();
    InsertQueryText("t", bind, "id", env);
    assert Join(", ", Literals(bind, env)) == "'x'";
    ConcatAssoc(head + "'x'", ") RETURNING ", "id");
  }
}
