/**
 * The callback table a TLS server is created with (struct s_ssl_funcs), its validation,
 * and the states and error kinds the callbacks receive. A callback is a function pointer
 * the model never calls: a Handle, None for NULL.
 */
module Ssl {
  import opened Wrappers
  import opened Errno
  import opened Foreign

  /** enum e_ssl_connection, in declaration order. */
  datatype ConnectionState = Close | Connected | Timeout

  /** enum e_ssl_error, in declaration order. */
  datatype ErrorKind = ConnectionError | Eof | ReadError | WriteError

  /** struct s_ssl_funcs. */
  datatype Funcs = Funcs(connection: Option<Handle>, error: Option<Handle>, read: Option<Handle>)

  /** Every callback of the table is set. */
  predicate Complete(funcs: Funcs)
  {
    funcs.connection.Some? && funcs.error.Some? && funcs.read.Some?
  }

  /**
   * s_ssl_funcs_check: -EINVAL for a NULL table, -EBADE as soon as one callback (connection,
   * then error, then read) is NULL, 0 otherwise. The table is only read.
   */
  function FuncsCheck(funcs: Option<Funcs>): (r: int)
    ensures funcs.None? <==> r == -EINVAL
    ensures r == 0 <==> funcs.Some? && Complete(funcs.value)
    ensures funcs.Some? && !Complete(funcs.value) ==> r == -EBADE
  {
    if funcs.None? then -EINVAL
    else if funcs.value.connection.None? then -EBADE
    else if funcs.value.error.None? then -EBADE
    else if funcs.value.read.None? then -EBADE
    else 0
  }
}
