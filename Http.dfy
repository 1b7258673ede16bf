/** The HTTP errors the service raises (FastAPI's `HTTPException`) and how a
    caught exception is turned into text and raised again. */
module Http {

  datatype Status = BadRequest | InternalServerError {
    function CodeText(): string {
      match this
      case BadRequest => "400"
      case InternalServerError => "500"
    }
  }

  datatype HttpError = HttpError(status: Status, detail: string)

  /** `str(e)` of an `HTTPException`: the status code, a colon and the detail. */
  function Describe(e: HttpError): string {
    e.status.CodeText() + ": " + e.detail
  }

  /** `raise HTTPException(status_code=500, detail=f"{prefix}{str(e)}")` in an
      `except Exception as e` handler: a 500 whose detail is the prefix
      followed by the text of what was caught. */
  function Reraise(prefix: string, caught: string): (r: HttpError)
    ensures r.status == InternalServerError
    ensures |r.detail| == |prefix| + |caught|
    ensures r.detail[..|prefix|] == prefix && r.detail[|prefix|..] == caught
  {
    HttpError(InternalServerError, prefix + caught)
  }
}
