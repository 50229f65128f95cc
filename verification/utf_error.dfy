/** The error type of the UTF validators and its construction from the standard library's UTF-8 error. */
module UtfErrors {
  import opened Wrappers

  /**
   * `UtfError`: `pos` is the index of the first unit of the offending
   * sequence, `len` the number of units known to be bad, `None` when the
   * input ended in the middle of a sequence.
   */
  datatype UtfError = UtfError(pos: nat, len: Option<nat>)

  /**
   * `core::str::Utf8Error`: the length of the longest valid prefix, and the
   * length of the invalid sequence after it (`None` for a sequence cut off by
   * the end of the input).
   */
  datatype Utf8Error = Utf8Error(validUpTo: nat, errorLen: Option<nat>)

  /** `From<Utf8Error> for UtfError`: both fields carried over unchanged. */
  function FromUtf8Error(e: Utf8Error): (r: UtfError)
    ensures r.pos == e.validUpTo && r.len == e.errorLen
  {
    UtfError(e.validUpTo, e.errorLen)
  }
}
