// Shared result types: Python's `None` and the program's exception classes.
module Common {

  datatype Option<T> = None | Some(value: T)

  /** The exception classes the program raises (its own ones and the builtins it lets escape). */
  datatype ErrorKind =
    | ValidationError
    | DownloadError
    | FileOperationError
    | ArchiveError
    | ImportError
    | TypeError

  datatype Error = Error(kind: ErrorKind, message: string)

  datatype Result<T> = Ok(value: T) | Err(error: Error)

  function Fail<T>(kind: ErrorKind, message: string): (r: Result<T>)
    ensures r.Err? && r.error.kind == kind && r.error.message == message
  {
    Err(Error(kind, message))
  }

  /** Adding a member to a set changes nothing. */
  lemma {:induction false} AddPresent<T>(s: set<T>, x: T)
    requires x in s
    ensures s + {x} == s
  {
  }

  /** Writing a key and then deleting it is deleting it. */
  lemma {:induction false} RemoveAfterUpdate<K, V>(m: map<K, V>, k: K, v: V)
    ensures m[k := v] - {k} == m - {k}
  {
  }

  /** A second write to a key replaces the first. */
  lemma {:induction false} UpdateTwice<K, V>(m: map<K, V>, k: K, v: V, w: V)
    ensures m[k := v][k := w] == m[k := w]
  {
  }
}
