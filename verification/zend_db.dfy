/** The framework-level vocabulary the PostgreSQL adapter and statement share:
    the `Zend_Db::FETCH_*` mode numbers, the two exception classes, and the
    collaborators the core calls but does not define. */
module ZendDb {

  /** Fetch-mode numbers of `Zend_Db` (they mirror PDO's). */
  const FETCH_LAZY: int := 1
  const FETCH_ASSOC: int := 2
  const FETCH_NUM: int := 3
  const FETCH_BOTH: int := 4
  const FETCH_OBJ: int := 5
  const FETCH_BOUND: int := 6
  const FETCH_NAMED: int := 11

  /** `Zend_Db_Adapter_Exception` and `Zend_Db_Statement_Exception`. */
  datatype Exception =
    | AdapterException(message: string)
    | StatementException(message: string, code: int)

  /** A call that either returns a value or throws. */
  datatype Result<+T> = Ok(value: T) | Err(error: Exception)

  /** Functions the core calls but that live outside it: `pg_escape_string`
      on the open connection, PHP's rendering of a float as text,
      `quoteIdentifier($name, true)` and `foldCase` of the abstract adapter.
      They are uninterpreted: nothing is assumed about them. */
  datatype Env = Env(
    escapeString: string -> string,
    floatText: real -> string,
    quoteIdentifier: string -> string,
    foldCase: string -> string)
}
