/** Small value types shared by the whole model. */
module Common {

  /** Python's `None` or a present value. */
  datatype Option<+T> = None | Some(value: T)

  /** A value, or the exception the source raises instead. */
  datatype Result<+T, +E> = Ok(value: T) | Err(error: E)
  {
    predicate IsFailure()
    {
      Err?
    }

    function PropagateFailure<U>(): Result<U, E>
      requires Err?
    {
      Err(error)
    }

    function Extract(): T
      requires Ok?
    {
      value
    }
  }

  /** A call that either returns normally or raises `error`. */
  datatype Outcome<+E> = Pass | Fail(error: E)

  /** An argument that the source checks with `isinstance`: either of the
      expected type, or some other Python value. */
  datatype Arg<+T> = Typed(value: T) | Untyped

  /** A timestamp, kept as the text it was read from or written as. Parsing
      and formatting of dates are not part of this model. */
  datatype Timestamp = Timestamp(text: string)

  /** A `pathlib.Path`. The field holds the path's string form, `str(p)`. */
  datatype Path = Path(text: string)

  /** `Path(s)`: the one normalisation modelled is that the empty path is
      the current directory, so `str(Path(""))` is ".". */
  function MakePath(s: string): (p: Path)
    ensures s != "" ==> p.text == s
    ensures s == "" ==> p.text == "."
  {
    if s == "" then Path(".") else Path(s)
  }
}
