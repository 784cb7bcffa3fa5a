/** `BaseResponse` and `PayrollProcessingResponse`, without the random transaction id. */
module Responses {
  import opened Wrappers
  import opened Events

  /** Success flag plus an optional reason code and description (`null` when unset). */
  datatype BaseResponse = BaseResponse(success: bool, reasonCode: Option<string>, reasonDesc: Option<string>)

  /** A `BaseResponse` that may also carry the parsed events or a list of error descriptions. */
  datatype ProcessingResponse = ProcessingResponse(
    base: BaseResponse,
    events: Option<seq<Event>>,
    errorDescriptions: Option<seq<string>>)
  {
    predicate Succeeded() {
      base.success
    }
  }

  /** `new PayrollProcessingResponse(success)`. */
  function Plain(success: bool): ProcessingResponse {
    ProcessingResponse(BaseResponse(success, None, None), None, None)
  }

  /** `new PayrollProcessingResponse(success, events)`. */
  function WithEvents(success: bool, events: seq<Event>): ProcessingResponse {
    ProcessingResponse(BaseResponse(success, None, None), Some(events), None)
  }

  /** `new PayrollProcessingResponse(success, errorDescriptions, true)`. */
  function WithErrors(success: bool, errors: seq<string>): ProcessingResponse {
    ProcessingResponse(BaseResponse(success, None, None), None, Some(errors))
  }

  /** `new PayrollProcessingResponse(baseResponse)`: copies the base fields only. */
  function FromBase(br: BaseResponse): ProcessingResponse {
    ProcessingResponse(br, None, None)
  }
}
