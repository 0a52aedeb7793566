/** The response envelope `CommonResult<T>`: a payload, a message and a status code, each of
    which may be `null`. Its four constructors chain into the three-argument one. */
module CommonResults {
  import opened Nullable

  /** The message the one-argument constructor fills in ("operation succeeded"). */
  const SuccessMsg: string := "操作成功"

  /** The status code the one-argument constructor fills in. */
  const SuccessCode: int := 200

  datatype CommonResult<T> = CommonResult(data: Option<T>, msg: Option<string>, code: Option<int>)

  /** `CommonResult()`: all three fields left `null`. */
  function Empty<T>(): (r: CommonResult<T>)
    ensures r.data.None? && r.msg.None? && r.code.None?
  {
    CommonResult(None, None, None)
  }

  /** `CommonResult(data, msg, code)`: the getters return exactly the arguments. */
  function Make<T>(data: Option<T>, msg: Option<string>, code: Option<int>): (r: CommonResult<T>)
    ensures r.data == data && r.msg == msg && r.code == code
  {
    CommonResult(data, msg, code)
  }

  /** `CommonResult(msg, code)`: delegates with a `null` payload. */
  function WithMessage<T>(msg: Option<string>, code: Option<int>): (r: CommonResult<T>)
    ensures r.data.None? && r.msg == msg && r.code == code
  {
    Make(None, msg, code)
  }

  /** `CommonResult(data)`: delegates with the success message and code 200. */
  function Success<T>(data: Option<T>): (r: CommonResult<T>)
    ensures r.data == data && r.msg == Some(SuccessMsg) && r.code == Some(SuccessCode)
  {
    Make(data, Some(SuccessMsg), Some(SuccessCode))
  }

  /** Every envelope, whichever constructor built it, has the fields the three-argument
      constructor gives its own getters (datatype equality compares the three fields). */
  lemma MakeFromGetters<T>(r: CommonResult<T>)
    ensures Make(r.data, r.msg, r.code) == r
  {
  }

  /** The acknowledgement `CommonResult("操作成功", 200)` the controllers return after a
      write has the same fields as the success envelope with a `null` payload. */
  lemma AcknowledgementIsEmptySuccess<T>()
    ensures WithMessage<T>(Some(SuccessMsg), Some(SuccessCode)) == Success(None)
  {
  }

  /** Two success envelopes have the same fields exactly when their payloads are equal: the one-argument
      constructor loses nothing of its argument. */
  lemma SuccessInjective<T>(d1: Option<T>, d2: Option<T>)
    ensures Success(d1) == Success(d2) <==> d1 == d2
  {
  }
}
