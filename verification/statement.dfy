/** `Zend_Db_Statement_Pgsql`: a statement is a small immutable record (the
    prepared SQL text, what the result slot holds, the cached counts, the
    fetch mode and the parameters bound through the base class), and every
    operation returns the new record alongside its PHP return value. The
    PostgreSQL client calls are inputs: `pg_query` is the `backend` function
    from the final SQL text to its outcome, and `fetch` receives the row the
    native fetch would return at the cursor. */
module PgsqlStatement {
  import opened Options
  import opened Strings
  import opened Php
  import opened ZendDb
  import Placeholders

  /** What `$this->_sqlresult` holds: nothing (null before any execution,
      false after a failed one), a live result, or a result that
      `pg_free_result` has released. A released result is still a truthy
      PHP resource, so it still counts as "a result" for every check. */
  datatype ResultState = NoResult | Live | Freed

  datatype Statement = Statement(
    preparedSql: string,
    result: ResultState,
    columnCount: int,
    rowCount: int,
    fetchMode: int,
    boundParams: seq<Value>)

  /** A statement just constructed, before `_prepare`: the property defaults
      and the adapter's fetch mode. */
  function Fresh(fetchMode: int): (st: Statement)
    ensures st.result == NoResult && st.preparedSql == ""
    ensures st.columnCount == 0 && st.rowCount == 0 && st.fetchMode == fetchMode
  {
    Statement("", NoResult, 0, 0, fetchMode, [])
  }

  /** `_prepare`: stores the SQL text and nothing else; it never fails. */
  function Prepare(st: Statement, sql: string): (st': Statement)
    ensures st'.preparedSql == sql
    ensures st' == st.(preparedSql := sql)
  {
    st.(preparedSql := sql)
  }

  /** `_bindParam`: accepted and ignored. */
  function BindParam(st: Statement, parameter: Key, variable: Value): (accepted: bool)
    ensures accepted
  {
    true
  }

  /** The outcome of `pg_query`: a failure with the texts `pg_result_error`
      and `pg_last_error` report, or a result with its column names and its
      affected-row count. */
  datatype QueryOutcome =
    | QueryFailed(resultError: string, lastError: string)
    | QuerySucceeded(columns: seq<string>, affectedRows: nat)

  /** The outcome of `_execute`: `false` without sending anything, `true`
      after sending `sql`, or an exception after sending `sql`. */
  datatype ExecOutcome =
    | NotSent(st: Statement)
    | Sent(sql: string, st: Statement)
    | Raised(sql: string, st: Statement, error: Exception)

  const ExecuteErrorPrefix: string := "PGSql statement execute error : "

  /** The parameters `_execute` uses: those passed, or the bound ones when none are. */
  function EffectiveParams(st: Statement, params: Option<seq<Value>>): seq<Value> {
    if params.None? then st.boundParams else params.value
  }

  /** The literal a parameter becomes: `NULL`, or the escaped text in single
      quotes. Numbers are quoted like everything else. */
  function EscapeParam(v: Value, env: Env): (token: string)
    ensures v.Null? <==> token == "NULL"
    ensures !v.Null? ==> token == "'" + env.escapeString(ToText(v, env.floatText)) + "'"
  {
    if v.Null? then "NULL"
    else
      var token := "'" + env.escapeString(ToText(v, env.floatText)) + "'";
      assert token[0] != "NULL"[0];
      token
  }

  function Tokens(params: seq<Value>, env: Env): (tokens: seq<string>)
    ensures |tokens| == |params|
    ensures forall i :: 0 <= i < |params| ==> tokens[i] == EscapeParam(params[i], env)
  {
    seq(|params|, i requires 0 <= i < |params| => EscapeParam(params[i], env))
  }

  /** When `vsprintf` is defined on the rewritten template: no `%` of its own
      and a parameter for every `?`. */
  predicate SubstitutionDefined(sql: string, paramCount: nat) {
    '%' !in sql && CountChar(sql, '?') <= paramCount
  }

  /** The text sent to the server: the template itself when there are no
      parameters, otherwise `vsprintf(str_replace("?", "%s", sql), tokens)`,
      which substitutes the i-th token for the i-th `?`. */
  function QueryText(sql: string, params: seq<Value>, env: Env): (q: string)
    requires |params| > 0 ==> SubstitutionDefined(sql, |params|)
    ensures |params| == 0 ==> q == sql
    ensures |params| > 0 ==> q == Placeholders.Substitute(sql, Tokens(params, env))
  {
    if |params| == 0 then sql
    else
      var tokens := Tokens(params, env);
      Placeholders.VSprintfOfReplaceMarks(sql, tokens);
      Placeholders.VSprintf(Placeholders.ReplaceMarks(sql), tokens).value
  }

  /** `_execute`. A falsy prepared text returns false and sends nothing. A
      failed query empties the result slot and raises with the result's
      error text, or the connection's when that is falsy. A successful one
      holds a live result and caches its column and affected-row counts. */
  function Execute(st: Statement, params: Option<seq<Value>>, env: Env, backend: string -> QueryOutcome): (o: ExecOutcome)
    requires |EffectiveParams(st, params)| > 0 ==> SubstitutionDefined(st.preparedSql, |EffectiveParams(st, params)|)
    ensures o.NotSent? <==> !StrTruthy(st.preparedSql)
    ensures o.NotSent? ==> o.st == st
    ensures !o.NotSent? ==> o.sql == QueryText(st.preparedSql, EffectiveParams(st, params), env)
    ensures o.Raised? ==>
      && backend(o.sql).QueryFailed?
      && o.st == st.(result := NoResult)
      && o.error == StatementException(ExecuteErrorPrefix + FailureText(backend(o.sql)), 1)
    ensures o.Sent? ==>
      && backend(o.sql).QuerySucceeded?
      && o.st.result == Live
      && o.st.columnCount == |backend(o.sql).columns|
      && o.st.rowCount == backend(o.sql).affectedRows
      && o.st.preparedSql == st.preparedSql
      && o.st.fetchMode == st.fetchMode
      && o.st.boundParams == st.boundParams
  {
    if !StrTruthy(st.preparedSql) then NotSent(st)
    else
      var q := QueryText(st.preparedSql, EffectiveParams(st, params), env);
      match backend(q)
      case QueryFailed(_, _) =>
        Raised(q, st.(result := NoResult), StatementException(ExecuteErrorPrefix + FailureText(backend(q)), 1))
      case QuerySucceeded(columns, affected) =>
        Sent(q, st.(result := Live, columnCount := |columns|, rowCount := affected))
  }

  /** `_execute` as written: the same as `Execute` except that the column
      count it caches is `pg_field_num($this->_sqlresult, "")`. */
  function ExecuteAsWritten(st: Statement, params: Option<seq<Value>>, env: Env, backend: string -> QueryOutcome): (o: ExecOutcome)
    requires |EffectiveParams(st, params)| > 0 ==> SubstitutionDefined(st.preparedSql, |EffectiveParams(st, params)|)
    ensures o.NotSent? <==> Execute(st, params, env, backend).NotSent?
    ensures o.Raised? <==> Execute(st, params, env, backend).Raised?
    ensures !o.Sent? ==> o == Execute(st, params, env, backend)
    ensures o.Sent? ==>
      && o.sql == Execute(st, params, env, backend).sql
      && o.st == Execute(st, params, env, backend).st.(columnCount := -1)
  {
    match Execute(st, params, env, backend)
    case Sent(q, st') => Sent(q, st'.(columnCount := FieldNum(backend(q).columns, "")))
    case other => other
  }

  /** The bound slots after `_execute`'s by-reference loop when each slot is
      a reference to a live variable (`bindParam`): with no parameters passed
      and some bound, each slot now holds its escaped token as a string. */
  function WriteBack(st: Statement, params: Option<seq<Value>>, env: Env): (bound: seq<Value>)
    ensures |bound| == |st.boundParams|
    ensures params.Some? || |st.boundParams| == 0 ==> bound == st.boundParams
    ensures params.None? ==> forall i :: 0 <= i < |bound| ==> bound[i] == Str(EscapeParam(st.boundParams[i], env))
  {
    if params.Some? || |st.boundParams| == 0 then st.boundParams
    else seq(|st.boundParams|, i requires 0 <= i < |st.boundParams| => Str(EscapeParam(st.boundParams[i], env)))
  }

  /** `_execute` on parameters bound by reference: the same outcome as
      `Execute`, except that once the text is built the bound slots hold
      the escaped tokens, whether the query then succeeds or fails. */
  function ExecuteByReference(st: Statement, params: Option<seq<Value>>, env: Env, backend: string -> QueryOutcome): (o: ExecOutcome)
    requires |EffectiveParams(st, params)| > 0 ==> SubstitutionDefined(st.preparedSql, |EffectiveParams(st, params)|)
    ensures o.NotSent? <==> Execute(st, params, env, backend).NotSent?
    ensures o.Sent? <==> Execute(st, params, env, backend).Sent?
    ensures o.NotSent? ==> o.st == st
    ensures !o.NotSent? ==> o.sql == QueryText(st.preparedSql, EffectiveParams(st, params), env)
    ensures !o.NotSent? ==>
      o.st == Execute(st, params, env, backend).st.(boundParams := WriteBack(st, params, env))
    ensures o.Raised? ==>
      && backend(o.sql).QueryFailed?
      && o.error == StatementException(ExecuteErrorPrefix + FailureText(backend(o.sql)), 1)
  {
    match Execute(st, params, env, backend)
    case NotSent(st') => NotSent(st')
    case Sent(q, st') => Sent(q, st'.(boundParams := WriteBack(st, params, env)))
    case Raised(q, st', e) => Raised(q, st'.(boundParams := WriteBack(st, params, env)), e)
  }

  /** Executing twice on a variable bound by reference quotes its value
      twice: the second text is the first one escaped and quoted again. */
  lemma ExecuteByReferenceTwice(st: Statement, v: string, env: Env, backend: string -> QueryOutcome)
    requires st.preparedSql == "?" && st.boundParams == [Str(v)]
    ensures var first := ExecuteByReference(st, None, env, backend);
      && !first.NotSent?
      && first.sql == "'" + env.escapeString(v) + "'"
      && first.st.boundParams == [Str(first.sql)]
      && ExecuteByReference(first.st, None, env, backend).sql == "'" + env.escapeString(first.sql) + "'"
  {
  }

  /** After a successful execution as written, `columnCount` reports -1
      whatever the result's columns, while `rowCount` reports the affected
      rows as intended. */
  lemma ExecuteAsWrittenThenCounts(st: Statement, params: Option<seq<Value>>, env: Env, backend: string -> QueryOutcome)
    requires |EffectiveParams(st, params)| > 0 ==> SubstitutionDefined(st.preparedSql, |EffectiveParams(st, params)|)
    requires ExecuteAsWritten(st, params, env, backend).Sent?
    ensures var o := ExecuteAsWritten(st, params, env, backend);
      && ColumnCount(o.st) == -1
      && ColumnCount(o.st) != |backend(o.sql).columns|
      && RowCount(o.st) == Some(backend(o.sql).affectedRows as int)
  {
  }

  /** The text sent is the template's pieces between `?` marks interleaved
      with the escaped parameters: the i-th `?` receives the i-th token, each
      token is used once, and the rest of the template is kept. */
  lemma QueryTextInterleaves(sql: string, params: seq<Value>, env: Env)
    requires |params| > 0 && SubstitutionDefined(sql, |params|)
    ensures |Split(sql, '?')| == CountChar(sql, '?') + 1
    ensures QueryText(sql, params, env) == Placeholders.Interleave(Split(sql, '?'), Tokens(params, env))
  {
    Placeholders.SubstituteIsInterleave(sql, Tokens(params, env));
  }

  /** The error text of a failed query: the result's, else the connection's. */
  function FailureText(o: QueryOutcome): (text: string)
    requires o.QueryFailed?
    ensures StrTruthy(o.resultError) ==> text == o.resultError
    ensures !StrTruthy(o.resultError) ==> text == o.lastError
  {
    if StrTruthy(o.resultError) then o.resultError else o.lastError
  }

  /** `pg_field_num(result, name)` (libpq's `PQfnumber`): -1 for an empty
      name whatever the columns, otherwise the index of the column called
      `name`, or -1 when there is none. */
  function FieldNum(columns: seq<string>, name: string): (n: int)
    ensures name == "" ==> n == -1
    ensures name != "" ==> (n == -1 <==> name !in columns)
    ensures n != -1 ==> 0 <= n < |columns| && columns[n] == name
  {
    if name == "" then -1
    else
      match IndexOf(columns, name)
      case None => -1
      case Some(i) => i
  }

  /** The column count as the source computes it, `pg_field_num($result, "")`,
      is -1 for every result, never its column count. */
  lemma AsWrittenColumnCount(columns: seq<string>)
    ensures FieldNum(columns, "") == -1
    ensures FieldNum(columns, "") != |columns|
  {
  }

  /** A concrete instance: a two-column result is cached as -1 columns. */
  lemma AsWrittenColumnCountExample()
    ensures FieldNum(["id", "name"], "") == -1
  {
    assert "" !in ["id", "name"];
  }

  /** `close`: forgets the prepared text, releases a live result without
      emptying the slot, and always returns false. */
  function Close(st: Statement): (r: (bool, Statement))
    ensures !r.0
    ensures r.1.preparedSql == ""
    ensures r.1.result.NoResult? <==> st.result.NoResult?
    ensures r.1.result != Live
    ensures r.1.columnCount == st.columnCount && r.1.rowCount == st.rowCount && r.1.fetchMode == st.fetchMode
    ensures r.1.boundParams == st.boundParams
  {
    var released := if st.result == Live then Freed else st.result;
    (false, st.(preparedSql := "", result := released))
  }

  /** `closeCursor`: true exactly when a live result is released. */
  function CloseCursor(st: Statement): (r: (bool, Statement))
    ensures r.0 <==> st.result == Live
    ensures r.1.result != Live
    ensures r.1.result.NoResult? <==> st.result.NoResult?
    ensures r.1.preparedSql == st.preparedSql
    ensures r.1.columnCount == st.columnCount && r.1.rowCount == st.rowCount
    ensures r.1.fetchMode == st.fetchMode && r.1.boundParams == st.boundParams
  {
    match st.result
    case Live => (true, st.(result := Freed))
    case Freed => (false, st)
    case NoResult => (false, st)
  }

  /** `rowCount`: false (`None`) without a result, else the cached count. */
  function RowCount(st: Statement): (r: Option<int>)
    ensures r.None? <==> st.result.NoResult?
    ensures r.Some? ==> r.value == st.rowCount
  {
    if st.result.NoResult? then None else Some(st.rowCount)
  }

  /** `columnCount`: the cached count, whatever the result slot holds. */
  function ColumnCount(st: Statement): (n: int)
    ensures n == st.columnCount
  {
    st.columnCount
  }

  /** `errorCode`: always false, whatever the statement's state. */
  function ErrorCode(st: Statement): (code: bool)
    ensures !code
  {
    false
  }

  /** `errorInfo`: false for a falsy prepared text, else code 1 with the
      connection's last error. */
  function ErrorInfo(st: Statement, lastError: string): (r: Option<(int, string)>)
    ensures r.None? <==> !StrTruthy(st.preparedSql)
    ensures r.Some? ==> r.value == (1, lastError)
  {
    if !StrTruthy(st.preparedSql) then None else Some((1, lastError))
  }

  /** `nextRowset`: always throws. */
  function NextRowset(st: Statement): (r: Result<bool>)
    ensures r.Err? && r.error == StatementException("nextRowset() is not implemented", 0)
  {
    Err(StatementException("nextRowset() is not implemented", 0))
  }

  /** A row as the client library returns it: column names and values in
      result order. */
  type NativeRow = seq<(string, Value)>

  /** What `fetch` returns: false, null, or a row in the requested shape. */
  datatype FetchOutcome =
    | NoRow
    | NullRow
    | Indexed(values: seq<Value>)
    | Assoc(row: seq<(string, Value)>)
    | Object(props: seq<(string, Value)>)
    | BoundRow(merged: seq<(Key, Value)>)

  predicate IsRow(o: FetchOutcome) {
    !(o.NoRow? || o.NullRow?)
  }

  /** Column `i` is the last one carrying its name. */
  predicate LastOf(row: NativeRow, i: nat)
    requires i < |row|
  {
    forall j :: i < j < |row| ==> row[j].0 != row[i].0
  }

  /** `pg_fetch_assoc`: columns keyed by name, a repeated name keeping its
      first position and its last value. */
  function AssocOf(row: NativeRow): (a: seq<(string, Value)>)
    ensures UniqueKeys(a)
    ensures |a| <= |row|
    ensures KeySet(a) == KeySet(row)
    ensures forall i :: 0 <= i < |row| && LastOf(row, i) ==> Lookup(a, row[i].0) == Some(row[i].1)
  {
    if |row| == 0 then []
    else
      var prev := AssocOf(row[..|row| - 1]);
      AssocOfStep(row[..|row| - 1], row[|row| - 1], prev);
      assert row[..|row| - 1] + [row[|row| - 1]] == row;
      Put(prev, row[|row| - 1].0, row[|row| - 1].1)
  }

  /** Assigning the last column to the associative row of the others keeps
      the keys equal to the column names and each name's last value. */
  lemma AssocOfStep(init: NativeRow, last: (string, Value), prev: seq<(string, Value)>)
    requires UniqueKeys(prev) && KeySet(prev) == KeySet(init)
    requires forall i :: 0 <= i < |init| && LastOf(init, i) ==> Lookup(prev, init[i].0) == Some(init[i].1)
    ensures UniqueKeys(Put(prev, last.0, last.1))
    ensures |Put(prev, last.0, last.1)| <= |prev| + 1
    ensures KeySet(Put(prev, last.0, last.1)) == KeySet(init + [last])
    ensures forall i :: 0 <= i < |init + [last]| && LastOf(init + [last], i) ==>
      Lookup(Put(prev, last.0, last.1), (init + [last])[i].0) == Some((init + [last])[i].1)
  {
    var row := init + [last];
    var (k, v) := last;
    var a := Put(prev, k, v);
    PutUnique(prev, k, v);
    assert KeySet(row) == KeySet(init) + {k} by {
      assert row[|init|].0 == k;
      forall x | x in KeySet(row) ensures x in KeySet(init) + {k} {
        var j :| 0 <= j < |row| && row[j].0 == x;
        if j < |init| { assert init[j].0 == x; }
      }
      forall x | x in KeySet(init) ensures x in KeySet(row) {
        var j :| 0 <= j < |init| && init[j].0 == x;
        assert row[j].0 == x;
      }
    }
    forall i | 0 <= i < |row| && LastOf(row, i) ensures Lookup(a, row[i].0) == Some(row[i].1) {
      if i < |init| {
        assert row[i] == init[i];
        assert row[|init|] == last;
        assert row[i].0 != k;
        assert LastOf(init, i) by {
          forall j | i < j < |init| ensures init[j].0 != init[i].0 {
            assert init[j] == row[j];
          }
        }
        assert row[i].0 in KeySet(init);
      }
    }
  }

  /** A repeated column name reads its last column's value. */
  lemma AssocOfRepeated(name: string, x: Value, y: Value)
    ensures AssocOf([(name, x), (name, y)]) == [(name, y)]
  {
    var row := [(name, x), (name, y)];
    assert row[..1] == [(name, x)];
    assert AssocOf([(name, x)]) == [(name, x)] by {
      assert [(name, x)][..0] == [];
    }
  }

  /** With distinct column names the associative row is the native row. */
  lemma {:induction false} AssocOfDistinct(row: NativeRow)
    requires UniqueKeys(row)
    ensures AssocOf(row) == row
  {
    if |row| > 0 {
      var init := row[..|row| - 1];
      AssocOfDistinct(init);
      assert row[|row| - 1].0 !in KeySet(init) by {
        forall i | 0 <= i < |init| ensures init[i].0 != row[|row| - 1].0 {
          assert init[i] == row[i];
        }
      }
      assert init + [row[|row| - 1]] == row;
    }
  }

  /** `array_merge($row, array_values($row))` on an associative row: the
      named entries followed by the same values under keys 0, 1, ... */
  function MergeWithValues(a: seq<(string, Value)>): (m: seq<(Key, Value)>)
    ensures |m| == 2 * |a|
    ensures forall i :: 0 <= i < |a| ==> m[i] == (Name(a[i].0), a[i].1)
    ensures forall i :: 0 <= i < |a| ==> m[|a| + i] == (Index(i), a[i].1)
  {
    seq(|a|, i requires 0 <= i < |a| => (Name(a[i].0), a[i].1))
      + seq(|a|, i requires 0 <= i < |a| => (Index(i), a[i].1))
  }

  /** In a bound-mode row every column's value is reachable both by its
      name and by its position. */
  lemma BoundRowLookup(a: seq<(string, Value)>, i: nat)
    requires UniqueKeys(a) && i < |a|
    ensures UniqueKeys(MergeWithValues(a))
    ensures Lookup(MergeWithValues(a), Name(a[i].0)) == Some(a[i].1)
    ensures Lookup(MergeWithValues(a), Index(i)) == Some(a[i].1)
  {
    var m := MergeWithValues(a);
    assert UniqueKeys(m) by {
      forall x, y | 0 <= x < y < |m| ensures m[x].0 != m[y].0 {
        if y < |a| {
          assert m[x].0 == Name(a[x].0) && m[y].0 == Name(a[y].0);
        } else if x >= |a| {
          assert m[x].0 == Index(x - |a|) && m[y].0 == Index(y - |a|);
        }
      }
    }
    LookupAt(m, i);
    LookupAt(m, |a| + i);
  }

  /** `fetch`. Without a result it returns false; a null style means the
      statement's mode; a released result reads as exhausted; a style the
      switch does not list returns null without reading. `FETCH_BOTH` passes
      the result resource itself to `array_merge`, which PHP 7 answers with
      null once a row was read. `FETCH_BOUND` gives the row handed to
      `_fetchBound`. */
  function Fetch(st: Statement, style: Option<int>, native: Option<NativeRow>): (o: FetchOutcome)
    ensures st.result.NoResult? ==> o == NoRow
    ensures st.result == Freed ==> !IsRow(o)
    ensures IsRow(o) ==> st.result == Live && native.Some?
    ensures !st.result.NoResult? && !(FetchStyle(st, style) in DispatchedStyles) ==> o == NullRow
    ensures st.result == Live && native.Some? ==>
      && (FetchStyle(st, style) == FETCH_NUM ==> o == Indexed(ValuesOf(native.value)))
      && (FetchStyle(st, style) == FETCH_ASSOC ==> o == Assoc(AssocOf(native.value)))
      && (FetchStyle(st, style) == FETCH_OBJ ==> o == Object(AssocOf(native.value)))
      && (FetchStyle(st, style) == FETCH_BOUND ==> o == BoundRow(MergeWithValues(AssocOf(native.value))))
      && (FetchStyle(st, style) == FETCH_BOTH ==> o == NullRow)
    ensures FetchStyle(st, style) in DispatchedStyles && (native.None? || st.result != Live) ==> o == NoRow
  {
    if st.result.NoResult? then NoRow
    else
      var mode := FetchStyle(st, style);
      var row := if st.result == Freed then None else native;
      if mode == FETCH_NUM then
        (if row.None? then NoRow else Indexed(ValuesOf(row.value)))
      else if mode == FETCH_ASSOC then
        (if row.None? then NoRow else Assoc(AssocOf(row.value)))
      else if mode == FETCH_BOTH then
        (if row.None? then NoRow else NullRow)
      else if mode == FETCH_OBJ then
        (if row.None? then NoRow else Object(AssocOf(row.value)))
      else if mode == FETCH_BOUND then
        (if row.None? then NoRow else BoundRow(MergeWithValues(AssocOf(row.value))))
      else NullRow
  }

  const DispatchedStyles: set<int> := {FETCH_NUM, FETCH_ASSOC, FETCH_BOTH, FETCH_OBJ, FETCH_BOUND}

  /** The style a fetch uses: the one passed, else the statement's mode. */
  function FetchStyle(st: Statement, style: Option<int>): int {
    if style.None? then st.fetchMode else style.value
  }

  /** `pg_fetch_row`: the values in column order. */
  function ValuesOf(row: NativeRow): (values: seq<Value>)
    ensures |values| == |row|
    ensures forall i :: 0 <= i < |row| ==> values[i] == row[i].1
  {
    seq(|row|, i requires 0 <= i < |row| => row[i].1)
  }

  /** After `close`, the prepared text is gone: executing sends nothing and
      returns false. */
  lemma CloseThenExecute(st: Statement, params: Option<seq<Value>>, env: Env, backend: string -> QueryOutcome)
    ensures Execute(Close(st).1, params, env, backend) == NotSent(Close(st).1)
  {
  }

  /** Closing twice returns false both times and leaves the same statement. */
  lemma CloseTwice(st: Statement)
    ensures !Close(st).0 && !Close(Close(st).1).0
    ensures Close(Close(st).1).1 == Close(st).1
  {
  }

  /** After `close`, `fetch` returns no row, whatever the style and the native row. */
  lemma FetchAfterClose(st: Statement, style: Option<int>, native: Option<NativeRow>)
    ensures !IsRow(Fetch(Close(st).1, style, native))
  {
  }

  /** After `closeCursor` the prepared text is kept: executing again sends
      the same text as before, or nothing exactly when it would have sent
      nothing before. */
  lemma CloseCursorThenExecute(st: Statement, params: Option<seq<Value>>, env: Env, backend: string -> QueryOutcome)
    requires |EffectiveParams(st, params)| > 0 ==> SubstitutionDefined(st.preparedSql, |EffectiveParams(st, params)|)
    ensures var before := Execute(st, params, env, backend);
      var after := Execute(CloseCursor(st).1, params, env, backend);
      && (after.NotSent? <==> before.NotSent?)
      && (!after.NotSent? ==> after.sql == before.sql && (after.Sent? <==> before.Sent?))
  {
  }

  /** A null style fetches exactly as the statement's own mode does. */
  lemma FetchDefaultsToMode(st: Statement, native: Option<NativeRow>)
    ensures Fetch(st, None, native) == Fetch(st, Some(st.fetchMode), native)
  {
  }

  /** `FETCH_LAZY` and `FETCH_NAMED`, which the adapter accepts as fetch
      modes, reach the switch's default and return null. */
  lemma AcceptedModesWithoutShape(st: Statement, native: Option<NativeRow>)
    requires !st.result.NoResult?
    ensures Fetch(st, Some(FETCH_LAZY), native) == NullRow
    ensures Fetch(st, Some(FETCH_NAMED), native) == NullRow
  {
  }

  /** A successful execution followed by `rowCount` reports the server's
      affected-row count, and `columnCount` the result's column count. */
  lemma ExecuteThenCounts(st: Statement, params: Option<seq<Value>>, env: Env, backend: string -> QueryOutcome)
    requires |EffectiveParams(st, params)| > 0 ==> SubstitutionDefined(st.preparedSql, |EffectiveParams(st, params)|)
    requires Execute(st, params, env, backend).Sent?
    ensures var o := Execute(st, params, env, backend);
      RowCount(o.st) == Some(backend(o.sql).affectedRows as int)
      && ColumnCount(o.st) == |backend(o.sql).columns|
  {
  }
}
