/**
 The HTTP exchanges the downloader takes part in, reduced to what it reads:
 a status code, the first value of each response header, and the body (or the
 failure to read it). Building the request, the client, the proxy transport and
 the User-Agent header are outside the model.
 */
module Http {
  import opened Common

  datatype Response = Response(status: int, header: map<string, string>, body: Option<seq<byte>>)

  /** The outcome of one request: `NoResponse` stands for an error from
      http.NewRequest or from the client's Do; `body == None` for an error from io.ReadAll. */
  datatype Exchange = NoResponse | Answered(response: Response)

  /** Header.Get: the (first) value of the header, or "" when it is absent. */
  function HeaderGet(header: map<string, string>, key: string): string
  {
    if key in header then header[key] else ""
  }

  /** The errors the downloader can return, one per error site. */
  datatype Error =
    | RequestFailed                    // http.NewRequest or client.Do failed
    | ProbeStatus(code: int)           // HEAD answered with a status above 299
    | BadContentLength(text: string)   // strconv.Atoi rejected Content-Length
    | PartStatus(code: int)            // ranged GET answered with a status above 299
    | BodyReadFailed                   // io.ReadAll failed
    | PartLengthMismatch               // segment payload of the wrong length
    | Incomplete                       // merged byte total differs from the probed size
}
