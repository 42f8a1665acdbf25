/** Optional values and the exceptions the extractor can raise.
    A Python exception that escapes `parseEndpoints` aborts the whole pass;
    here it is a `Fail` value that every later step propagates with `:-`. */
module Results {

  datatype Option<+T> = None | Some(value: T)

  /** The built-in exceptions the extraction code can run into. */
  datatype PyError =
    | IndexError      // `contents[k]` past the end of a list
    | KeyError        // `attrs['class']` or `attrs['id']` on a tag without that attribute
    | AttributeError  // `.contents`, `.attrs` or `.name` asked of a plain string
    | ValueError      // `list.index('span')` when no `span` is present

  datatype Result<+T> = Ok(value: T) | Fail(error: PyError) {

    predicate IsFailure() {
      Fail?
    }

    function PropagateFailure<U>(): Result<U>
      requires Fail?
    {
      Fail(error)
    }

    function Extract(): T
      requires Ok?
    {
      value
    }
  }
}
