# Zend_Db PostgreSQL adapter and statement, modelled in Dafny

This project models the two classes of the `zend-db-pgsql` package:
`Zend_Db_Adapter_Pgsql` (value quoting, fetch-mode selection, the LIMIT
clause, sequence and last-insert-id queries, primary-key discovery from the
`describeTable` catalog rows, and `insert ... RETURNING`), and
`Zend_Db_Statement_Pgsql` (prepare, execute with client-side `?`
substitution, fetch in the supported styles, close and the counters).

The model keeps the PHP behaviour the code relies on:

- PHP truthiness: `""` and `"0"` are falsy.
- `intval` parses leading whitespace and a sign, and saturates at 64 bits.
- Ordered PHP arrays are sequences of key/value pairs.
- In PCRE, `$` also matches before a final newline.
- `array_search` returning false counts as 0, so a miss gives position 1.

The PostgreSQL client calls are inputs, not code:

- `pg_escape_string`, the identifier quoting, the case folding and PHP's
  float-to-string conversion are uninterpreted functions in `ZendDb.Env`.
- `pg_query` is a `backend` function from SQL text to its outcome.
- A fetch receives the row the client library would return.
- `describeTable` receives the catalog query's rows.

Files:

- `options.dfy`: `Option`.
- `strings.dfy`: decimal text, search, split and join.
- `php.dfy`: PHP values, truthiness, `intval`, ordered arrays.
- `zend_db.dfy`: the `Zend_Db` fetch constants, exceptions, `Result`, `Env`.
- `placeholders.dfy`: `str_replace` + `vsprintf`, and the direct substitution it amounts to.
- `catalog.dfy`: the `describeTable` post-processing.
- `statement.dfy`: the statement.
- `adapter.dfy`: the adapter.

## Model

| member | source | states |
|---|---|---|
| PgsqlStatement.Fresh | library/Zend/Db/Statement/Pgsql.php:23-26 | a new statement has no prepared text, no result, zero counts and the given fetch mode |
| PgsqlStatement.Prepare | library/Zend/Db/Statement/Pgsql.php:32-34 | preparing stores the SQL text and changes nothing else |
| PgsqlStatement.BindParam | library/Zend/Db/Statement/Pgsql.php:47-49 | binding a parameter is always accepted |
| PgsqlStatement.EscapeParam | library/Zend/Db/Statement/Pgsql.php:133 | a parameter becomes `NULL` exactly when it is null, otherwise the escaped text between single quotes (numbers included) |
| PgsqlStatement.QueryText | library/Zend/Db/Statement/Pgsql.php:131-138 | with no parameters the template is sent as is; otherwise the text `vsprintf(str_replace("?", "%s", sql), tokens)` yields is the left-to-right substitution of the tokens for the `?` marks |
| Placeholders.ReplaceMarks | library/Zend/Db/Statement/Pgsql.php:135 | the rewritten template has no `?`, is one character longer per mark, and holds one `%` per former mark |
| Placeholders.VSprintf | library/Zend/Db/Statement/Pgsql.php:135 | a format without `%` formats to itself |
| Placeholders.VSprintfOfReplaceMarks | library/Zend/Db/Statement/Pgsql.php:135 | formatting the rewritten template equals substituting the tokens for the marks in the original |
| Placeholders.SubstituteIsInterleave | library/Zend/Db/Statement/Pgsql.php:135 | substitution equals the pieces between marks interleaved with the tokens, one more piece than marks |
| Placeholders.SubstituteNoMarks | library/Zend/Db/Statement/Pgsql.php:135 | tokens without `?` leave no mark in the result |
| Placeholders.SubstitutePrefix | library/Zend/Db/Statement/Pgsql.php:135 | text without marks in front of the template passes through substitution untouched |
| PgsqlStatement.QueryTextInterleaves | library/Zend/Db/Statement/Pgsql.php:131-135 | the i-th `?` receives the i-th escaped parameter, and the rest of the template is kept |
| PgsqlStatement.Execute | library/Zend/Db/Statement/Pgsql.php:119-154 | a falsy prepared text sends nothing; the passed parameters, or else the bound ones, are substituted; a failed query empties the result and raises code 1 with the prefixed error text; a success keeps a live result, the prepared text, the fetch mode and the bound parameters as values (see Left out), and caches the affected rows and (corrected, see Findings) the result's column count |
| PgsqlStatement.ExecuteByReference | library/Zend/Db/Statement/Pgsql.php:124-135 | with variables bound by reference, execution sends, raises and sends nothing exactly as `Execute` with the same text, a failure raises the same prefixed error with code 1, and once the text is built each bound slot holds its escaped token |
| PgsqlStatement.ExecuteByReferenceTwice | library/Zend/Db/Statement/Pgsql.php:124-135 | executing twice on a template `?` bound to a variable sends the value quoted once, then quoted again |
| PgsqlStatement.ExecuteAsWritten | library/Zend/Db/Statement/Pgsql.php:119-154 | the code as written: it sends, raises and fails exactly as `Execute`, with the same text and state, except that a success caches `pg_field_num($result, "")`, which is -1 |
| PgsqlStatement.ExecuteAsWrittenThenCounts | library/Zend/Db/Statement/Pgsql.php:151-152 | after a successful execution as written, `columnCount` reports -1, never the result's column count, while `rowCount` reports the affected rows |
| PgsqlStatement.FailureText | library/Zend/Db/Statement/Pgsql.php:144-145 | the error text is the result's error when truthy, else the connection's last error |
| PgsqlStatement.FieldNum | library/Zend/Db/Statement/Pgsql.php:151 | `pg_field_num`: -1 for the empty name; otherwise the index of a column with that name, or -1 exactly when no column has it |
| PgsqlStatement.AsWrittenColumnCount | library/Zend/Db/Statement/Pgsql.php:151 | the count as written is -1 for every result, so it never equals the column count |
| PgsqlStatement.AsWrittenColumnCountExample | library/Zend/Db/Statement/Pgsql.php:151 | a two-column result is cached as -1 columns |
| PgsqlStatement.Close | library/Zend/Db/Statement/Pgsql.php:56-62 | close always returns false, forgets the prepared text, releases a live result and keeps the counts, the fetch mode and the bound parameters |
| PgsqlStatement.CloseCursor | library/Zend/Db/Statement/Pgsql.php:69-74 | returns true exactly when a live result is released; the prepared text, the cached counts, the fetch mode and the bound parameters are kept |
| PgsqlStatement.CloseCursorThenExecute | library/Zend/Db/Statement/Pgsql.php:69-74 | after `closeCursor` an execution sends the same text as before, or nothing exactly when it would have sent nothing before |
| PgsqlStatement.ColumnCount | library/Zend/Db/Statement/Pgsql.php:82-84 | the column count is the cached one, whatever the result slot holds |
| PgsqlStatement.ErrorCode | library/Zend/Db/Statement/Pgsql.php:92-94 | the error code is always false |
| PgsqlStatement.ErrorInfo | library/Zend/Db/Statement/Pgsql.php:102-110 | false exactly for a falsy prepared text, else code 1 with the connection's last error |
| PgsqlStatement.Fetch | library/Zend/Db/Statement/Pgsql.php:165-201 | no row without a result, after release or when the client has no row; a null style means the statement's mode; styles outside the switch give null; with a row, `FETCH_NUM` gives its values in order, `FETCH_ASSOC` and `FETCH_OBJ` its name-to-value entries, `FETCH_BOUND` the row handed to `_fetchBound`, those entries followed by the values under 0, 1, ..., and `FETCH_BOTH` null |
| PgsqlStatement.ValuesOf | library/Zend/Db/Statement/Pgsql.php:177 | `pg_fetch_row` gives every column's value in column order |
| PgsqlStatement.AssocOf | library/Zend/Db/Statement/Pgsql.php:180 | an associative row has unique keys, exactly the column names as keys, no more entries than columns, and under each name the value of the last column carrying it |
| PgsqlStatement.AssocOfRepeated | library/Zend/Db/Statement/Pgsql.php:180 | two columns with the same name give one entry holding the second value |
| PgsqlStatement.AssocOfDistinct | library/Zend/Db/Statement/Pgsql.php:180 | with distinct column names the associative row is the native row |
| PgsqlStatement.MergeWithValues | library/Zend/Db/Statement/Pgsql.php:193 | `array_merge($row, array_values($row))` holds the named entries followed by the same values under 0, 1, ... |
| PgsqlStatement.BoundRowLookup | library/Zend/Db/Statement/Pgsql.php:190-195 | in a bound-style row every column is found both by its name and by its position |
| PgsqlStatement.NextRowset | library/Zend/Db/Statement/Pgsql.php:211-218 | `nextRowset` always raises "nextRowset() is not implemented" |
| PgsqlStatement.RowCount | library/Zend/Db/Statement/Pgsql.php:227-232 | false exactly when the statement has no result, else the cached affected-row count |
| PgsqlStatement.CloseThenExecute | library/Zend/Db/Statement/Pgsql.php:56-62 | after close, execute sends nothing and returns false |
| PgsqlStatement.CloseTwice | library/Zend/Db/Statement/Pgsql.php:56-62 | closing twice returns false both times and leaves the same statement |
| PgsqlStatement.FetchAfterClose | library/Zend/Db/Statement/Pgsql.php:165-201 | after close no style reads a row |
| PgsqlStatement.FetchDefaultsToMode | library/Zend/Db/Statement/Pgsql.php:170-172 | a null style fetches exactly as the statement's own mode |
| PgsqlStatement.AcceptedModesWithoutShape | library/Zend/Db/Statement/Pgsql.php:175-199 | `FETCH_LAZY` and `FETCH_NAMED` reach the default branch and return null |
| PgsqlStatement.ExecuteThenCounts | library/Zend/Db/Statement/Pgsql.php:151-152 | after a successful execute, `rowCount` reports the affected rows and (corrected, see Findings) `columnCount` the result's columns |
| PgsqlAdapter.QuoteText | library/Zend/Db/Adapter/Pgsql.php:98 | a quoted literal is the escaped text between single quotes |
| PgsqlAdapter.Quote | library/Zend/Db/Adapter/Pgsql.php:93-99 | integers and floats pass through; every other value becomes its escaped, quoted text |
| PgsqlAdapter.QuoteVersusStatementEscape | library/Zend/Db/Adapter/Pgsql.php:93-99 | adapter and statement quote strings alike, but differ on integers (passed through vs quoted) and on null (`''` vs `NULL`) |
| PgsqlAdapter.PrepareStatement | library/Zend/Db/Adapter/Pgsql.php:319-337 | a prepared statement holds the SQL text as given and the adapter's fetch mode, with no result and no bound parameters |
| PgsqlAdapter.PreparedFalsyTextNotSent | library/Zend/Db/Adapter/Pgsql.php:319-337 | a statement prepared from `""` or `"0"` is never sent; any other text is |
| PgsqlAdapter.LastInsertId | library/Zend/Db/Adapter/Pgsql.php:356-367 | with no table the stored id is returned; with a table the `CURRVAL` query on its sequence is run |
| PgsqlAdapter.SequenceName | library/Zend/Db/Adapter/Pgsql.php:358-362 | the sequence is `table_pk_seq`, or `table_seq` when the key is falsy |
| PgsqlAdapter.SequenceNameWithoutKeyInjective | library/Zend/Db/Adapter/Pgsql.php:358-362 | without a key, different tables read different sequences |
| PgsqlAdapter.SequenceNamesCollide | library/Zend/Db/Adapter/Pgsql.php:358-362 | with a key the naming is ambiguous: (`a_b`, `c`) and (`a`, `b_c`) both give `a_b_c_seq` |
| PgsqlAdapter.SequenceQueriesDetermineName | library/Zend/Db/Adapter/Pgsql.php:475-495 | `lastSequenceId` and `nextSequenceId` send `CurrvalSql` and `NextvalSql`: the `CURRVAL` queries of two sequences are equal exactly when their escaped names are, likewise the `NEXTVAL` queries, and no `CURRVAL` query is a `NEXTVAL` one |
| PgsqlAdapter.SetFetchMode | library/Zend/Db/Adapter/Pgsql.php:406-430 | the six listed modes are accepted and replace only the mode; `FETCH_BOUND` raises "not supported yet"; any other mode raises with the mode in the message |
| PgsqlAdapter.SetFetchModeIdempotent | library/Zend/Db/Adapter/Pgsql.php:406-430 | setting an accepted mode twice equals setting it once |
| PgsqlAdapter.AcceptedModesInFetch | library/Zend/Db/Adapter/Pgsql.php:406-430 | of the accepted modes, `fetch` dispatches all but `FETCH_LAZY` and `FETCH_NAMED`; `FETCH_BOUND`, which `fetch` handles, is refused |
| PgsqlAdapter.Limit | library/Zend/Db/Adapter/Pgsql.php:440-465 | succeeds exactly when the `intval` count is positive and the `intval` offset is not negative; appends ` LIMIT n` and ` OFFSET m` only for a positive offset; otherwise raises with the coerced value |
| PgsqlAdapter.LimitClauseRoundTrip | library/Zend/Db/Adapter/Pgsql.php:459-462 | the appended clause reads back as the count and offset it was built from |
| PgsqlAdapter.LimitAcceptsDecimalText | library/Zend/Db/Adapter/Pgsql.php:441-450 | a decimal string count or offset acts like the integer it spells |
| Php.IntValOfIntText | library/Zend/Db/Adapter/Pgsql.php:441 | `intval` of a 64-bit integer's decimal text is that integer |
| Php.IntValOfFloatInRange | library/Zend/Db/Adapter/Pgsql.php:441 | `intval` of an in-range float count or offset truncates it toward zero: the largest integer not above a non-negative value, the smallest not below a negative one |
| PgsqlAdapter.PrimaryKeyName | library/Zend/Db/Adapter/Pgsql.php:497-509 | `oid` for an empty table name; a failing describe propagates; otherwise the name of the first PRIMARY descriptor, or `oid` when there is none |
| PgsqlAdapter.PrimaryKeyOfDistinctRows | library/Zend/Db/Adapter/Pgsql.php:497-509 | the key is the folded name of the first catalog row in a PRIMARY KEY constraint |
| PgsqlAdapter.PrimaryKeyWithoutPrimaryRow | library/Zend/Db/Adapter/Pgsql.php:497-509 | a table none of whose catalog rows is in a PRIMARY KEY constraint gets `oid`, whatever its column names |
| PgsqlAdapter.ExamplePrimaryKey | library/Zend/Db/Adapter/Pgsql.php:497-509 | a table with a serial primary key `id` returns `id` |
| Catalog.ColumnLength | library/Zend/Db/Adapter/Pgsql.php:208-215 | non-character types and unmatched types keep the catalog length; a matched character type without a bound reports null, and one with a bound reports that bound's decimal value |
| Catalog.MatchCharacterLength | library/Zend/Db/Adapter/Pgsql.php:209 | the pattern matches exactly when the type text contains `character`; a reported bound is a non-empty digit run in parentheses right after the first `character` and an optional ` varying`; when none is reported no digit run in parentheses stands there |
| Catalog.DeclaredLength | library/Zend/Db/Adapter/Pgsql.php:209-211 | a type text with no `c` before `character`, followed by an optional ` varying` and `(n)`, reports the bound n |
| Catalog.UnboundedLength | library/Zend/Db/Adapter/Pgsql.php:209-214 | a type text with no `c` before `character`, followed by an optional ` varying` and then neither `(` nor a space, matches without a bound |
| Catalog.VarcharLength | library/Zend/Db/Adapter/Pgsql.php:209-211 | `character varying(n)` reports length n |
| Catalog.BpcharLength | library/Zend/Db/Adapter/Pgsql.php:209-211 | `character(n)` reports length n |
| Catalog.UnboundedVarcharLength | library/Zend/Db/Adapter/Pgsql.php:212-213 | an unbounded `character varying` reports a null length |
| Catalog.StripLiteralCast | library/Zend/Db/Adapter/Pgsql.php:216 | a stripped default is the quoted group of a `'...'::character varying` or `'...'::bpchar` literal |
| Catalog.StripCastLiteral | library/Zend/Db/Adapter/Pgsql.php:216-217 | every such literal, with or without a final newline, is stripped to its group |
| Catalog.ColumnDefault | library/Zend/Db/Adapter/Pgsql.php:207-218 | only a character-type default written as a cast literal changes, and then to the literal's contents; every such literal, `'s'::character varying` or `'s'::bpchar` with `s` free of newlines, becomes `s` |
| Catalog.StripsEveryCastLiteral | library/Zend/Db/Adapter/Pgsql.php:216-217 | each of the four accepted literal forms is stripped to its group |
| Catalog.PrimaryPosition | library/Zend/Db/Adapter/Pgsql.php:223 | the primary position is at least 1 |
| Catalog.KeyListPosition | library/Zend/Db/Adapter/Pgsql.php:223 | a column's primary position is its 1-based place in the constraint's key list |
| Catalog.DescribeColumn | library/Zend/Db/Adapter/Pgsql.php:220-241 | a descriptor carries the folded schema, table and column names, position and type; it is nullable exactly when not `t`; primary exactly for a `p` constraint, with a position only then; identity exactly for a primary column whose default starts with `nextval` |
| Catalog.DescribeTable | library/Zend/Db/Adapter/Pgsql.php:205-243 | the result is keyed by unique folded column names, covering exactly the rows' folded names |
| Catalog.DescribeTableEntries | library/Zend/Db/Adapter/Pgsql.php:205-243 | every entry is some row's folded name with that row's descriptor, whether or not names repeat |
| Catalog.DescribeTableOnePerRow | library/Zend/Db/Adapter/Pgsql.php:205-243 | with distinct folded names the result holds one descriptor per row, in row order |
| Catalog.DescribeTableLookup | library/Zend/Db/Adapter/Pgsql.php:226 | a row whose folded name no later row repeats is found under that name with its own descriptor |
| Catalog.FirstPrimary | library/Zend/Db/Adapter/Pgsql.php:501-506 | the loop stops at the first PRIMARY descriptor, or finds none |
| PgsqlAdapter.InsertSql | library/Zend/Db/Adapter/Pgsql.php:534-538 | the statement `insert` builds is never falsy, so it is always sent |
| PgsqlAdapter.InsertQueryText | library/Zend/Db/Adapter/Pgsql.php:520-541 | the statement holds one `?` per plain value, and the text sent has each value's escaped literal in its VALUES slot and each expression where it was written |
| PgsqlAdapter.InsertMarksMatchParams | library/Zend/Db/Adapter/Pgsql.php:523-531 | the VALUES list holds exactly as many `?` as `array_values($bind)` has values once the expressions are unset |
| PgsqlAdapter.InsertSubstitutionDefined | library/Zend/Db/Adapter/Pgsql.php:520-541 | when there are plain values, `vsprintf` is defined on the statement exactly when its quoted names, expressions and key hold no `?` and no `%` |
| PgsqlAdapter.Insert | library/Zend/Db/Adapter/Pgsql.php:518-546 | a failing describe propagates; the insert succeeds exactly when the query does, else raises the statement's error; on success the first returned column is stored as the last id and returned |
| PgsqlAdapter.InsertThenLastInsertId | library/Zend/Db/Adapter/Pgsql.php:544-545 | after an insert, `lastInsertId()` without arguments gives back the returned id |
| PgsqlAdapter.ExampleInsertSql | library/Zend/Db/Adapter/Pgsql.php:534-538 | for the example table the statement is `INSERT INTO "t" ("name") VALUES (?) RETURNING id` |
| PgsqlAdapter.ExampleInsertText | library/Zend/Db/Adapter/Pgsql.php:534-541 | and the text sent is `INSERT INTO "t" ("name") VALUES ('x') RETURNING id` |
| PgsqlAdapter.SupportsParameters | library/Zend/Db/Adapter/Pgsql.php:554-562 | only `positional` is supported |
| PgsqlAdapter.OnlyPositionalMarksSubstituted | library/Zend/Db/Adapter/Pgsql.php:554-562 | only `positional` is supported, and the text built from a template without `?` or `%` is the template, whatever parameters are given |
| PgsqlAdapter.ServerVersion | library/Zend/Db/Adapter/Pgsql.php:569-571 | the server version is always null |

## Left out

- Connection handling (`_connect`, `isConnected`, `closeConnection`, the `SET NAMES` charset query): these are I/O on the native client.
- Transactions (`_beginTransaction`, `_commit`, `_rollBack`): each only sends a fixed statement through the client.
- `listTables` and the SQL text of the `describeTable` query: the model starts from the rows that query returns.
- The `_numericDataTypes` table, and SCALE, PRECISION and UNSIGNED: these are constant data or always null.
- `prepare`'s closing of the previously prepared statement (`_stmt`) and its dynamic class loading: the adapter is modelled without the object graph.
- `Zend_Db_Adapter_Abstract::query`, `fetchOne`, `fetchCol` and the base statement's `_fetchBound` live in the base framework, which is not part of this model. `insert` is modelled as prepare, execute and one numbered fetch.
- PgsqlStatement.Fetch: the `FETCH_BOUND` result is the row handed to `_fetchBound` (line 194 of library/Zend/Db/Statement/Pgsql.php), not what `_fetchBound` makes of it, because that method belongs to the base statement class.
- The base statement constructor's `_parseParameters`, which rejects a named `:param` placeholder because `supportsParameters('named')` is false: the base class is not part of this model.
- `getQuoteIdentifierSymbol` returns the constant `"`; the model quotes identifiers through `Env` and does not use it.
- `Zend_Db_Adapter_Abstract::quoteIdentifier` and `foldCase` are uninterpreted functions in `Env`.
- PHP 7 semantics are modelled where PHP 8 would throw. `pg_*` calls on a freed result return false, so `close`, `closeCursor` and `fetch` report false or no row (lines 60 and 71, and the fetch calls at lines 177, 180, 183, 188 and 191 of library/Zend/Db/Statement/Pgsql.php). `pg_result_error(false)` fails its parameter check and returns null, so the connection's last error is used (line 144). `array_merge` with a resource argument returns null, so `FETCH_BOTH` gives null (line 185). Under PHP 8 each of these raises a `TypeError` or `Error`.
- PgsqlStatement.Execute: bound parameters are modelled as values. In PHP each bound slot is a reference, and the by-reference loop at line 132 of library/Zend/Db/Statement/Pgsql.php writes the escaped tokens back through it. This happens for a slot whose `bindParam` variable is still alive, not for a `bindValue` slot, whose lone reference PHP drops when the array is copied. The model does not track which slots are which: `Execute` is the value case, and `ExecuteByReference` is the case where every slot is a live reference.
- PgsqlStatement.Execute: it caches the result's column count, the evidently intended value, not the -1 that line 151 computes. PgsqlStatement.ExecuteAsWritten models the line as written.
- PgsqlStatement.FieldNum: libpq folds unquoted column names to lower case and strips double quotes before comparing. The model compares names exactly; this makes no difference for the empty name that line 151 passes.
- `FETCH_OBJ` rows: these are modelled as associative rows, not PHP objects.
- `intval` of strings in exponent form, and of floats beyond the 64-bit range except as a wrapped truncation.
- PHP's loose `switch` comparison in `setFetchMode` and `supportsParameters`: modes are integers and kinds are strings.
- Numeric-string column names, which PHP arrays would turn into integer keys.
- `pg_result_error` on a failed query: the model takes its text as an input.
- PgsqlStatement.Execute: the model requires the template to hold no `%` and at most as many `?` as parameters. `vsprintf` would misread a `%` or fail on too few arguments, and that is not modelled.
- PgsqlAdapter.Insert: it carries the same `vsprintf` requirement through `InsertDefined`. That predicate asks that the quoted names, the expressions and the key hold no `?` and no `%`, which `InsertSubstitutionDefined` shows is the same requirement.
- Catalog.DescribeTableOnePerRow: it assumes distinct folded column names. Otherwise a later row overwrites an earlier one, which DescribeTable itself models.
- PgsqlAdapter.PrimaryKeyOfDistinctRows: it assumes distinct folded column names, for the same reason.
- Prepare of an empty text: the code accepts it and stores it, and only `_execute` refuses a falsy text. The model follows the code, not the class's documented contract.

## Findings

| source | as written | input that shows it | evidently intended | confidence | as-written member | corrected member |
|---|---|---|---|---|---|---|
| library/Zend/Db/Statement/Pgsql.php:151 | the column count is `pg_field_num($result, "")`, which is -1 for the empty name whatever the columns | every result, such as `SELECT 1 AS id, 2 AS name`, caches -1 | the number of columns in the result (`pg_num_fields`) | not executed | PgsqlStatement.ExecuteAsWritten | PgsqlStatement.Execute |
