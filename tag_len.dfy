/** `TagLen`: the tag length of a log record, checked against `MAX_TAG_LEN`
    when it is built. The source panics on a length that is too large; here
    that path is an explicit error value. */
module TagLength {
  import opened HilogBase

  /** The source's tuple struct `TagLen(u16)`. Its field is private to the
      source module, so values outside that module come only from `New`. */
  datatype TagLen = TagLen(value: bv16)

  /** The one way `TagLen::new` can fail: the panic "len exceeded MAX_TAG_LEN". */
  datatype TagLenError = LenExceededMaxTagLen

  datatype Result<T> = Ok(value: T) | Err(error: TagLenError)

  /** `TagLen::new(len)`: fails when `len > MAX_TAG_LEN`, with the one
      error `LenExceededMaxTagLen`, otherwise stores `len as u16`. It never
      clamps or wraps. */
  function New(len: Usize): (r: Result<TagLen>)
    ensures r.Ok? <==> len <= MAX_TAG_LEN
    ensures r.Ok? ==> r.value.value as Usize == len
  {
    if len > MAX_TAG_LEN then Err(LenExceededMaxTagLen)
    else Ok(TagLen(UsizeAsU16(len)))
  }

  /** Every `TagLen` that `New` builds is within the protocol's ceiling. */
  predicate Valid(t: TagLen) {
    t.value as Usize <= MAX_TAG_LEN
  }

  /** A corollary of `New`'s contract, stated from the caller's side: a
      length within `MAX_TAG_LEN` is accepted, read back unchanged (the
      `as u16` cast loses nothing in that range) and gives a valid tag length. */
  lemma NewStoresLength(len: Usize)
    requires len <= MAX_TAG_LEN
    ensures New(len).Ok? && New(len).value.value as Usize == len
    ensures Valid(New(len).value)
  {
  }

  /** `New` accepts exactly the lengths that produce a valid `TagLen`, and
      every valid `TagLen` is the result of `New` on its own value. */
  lemma NewIsExactlyValid(t: TagLen)
    ensures Valid(t) <==> New(t.value as Usize) == Ok(t)
  {
  }
}
