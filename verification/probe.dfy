/**
 The range probe (`hasAcceptRanges`): one HEAD exchange decides the resource size
 and whether byte ranges may be requested, from the Accept-Ranges and
 Content-Length fields of RFC 9110 (sections 14.3 and 8.6). The code compares
 Accept-Ranges with exactly "bytes": although section 14.3 allows a list of
 case-insensitive range units, a value such as `Bytes` or `bytes, none` means
 no range support here.
 */
module Probe {
  import opened Common
  import opened GoText
  import opened Http

  /** The Go triple `(int, bool, error)`. */
  datatype ProbeResult = ProbeResult(size: int, rangeSupported: bool, err: Option<Error>)

  function HasAcceptRanges(head: Exchange): (r: ProbeResult)
    // a failed request or a status above 299 is an error, with size 0 and no ranges
    ensures head.NoResponse? ==> r == ProbeResult(0, false, Some(RequestFailed))
    ensures head.Answered? && head.response.status > 299 ==>
              r == ProbeResult(0, false, Some(ProbeStatus(head.response.status)))
    // ranges are used only when the server answered 2xx with exactly "bytes"
    ensures r.rangeSupported <==>
              head.Answered? && head.response.status <= 299
              && HeaderGet(head.response.header, "Accept-Ranges") == "bytes"
    // without ranges the size is 0, and the answer itself is not an error
    ensures head.Answered? && head.response.status <= 299 && !r.rangeSupported ==>
              r == ProbeResult(0, false, None)
    // with ranges the size is Content-Length as Atoi reads it, and Atoi's error is returned
    ensures r.rangeSupported ==>
              var text := HeaderGet(head.response.header, "Content-Length");
              && r.size == AtoiOrZero(text)
              && (r.err.None? <==> Atoi(text).Some?)
              && (r.err.Some? ==> r.err == Some(BadContentLength(text)))
  {
    match head
    case NoResponse => ProbeResult(0, false, Some(RequestFailed))
    case Answered(resp) =>
      if resp.status > 299 then ProbeResult(0, false, Some(ProbeStatus(resp.status)))
      else if HeaderGet(resp.header, "Accept-Ranges") != "bytes" then ProbeResult(0, false, None)
      else
        var text := HeaderGet(resp.header, "Content-Length");
        match Atoi(text)
        case Some(n) => ProbeResult(n, true, None)
        case None => ProbeResult(0, true, Some(BadContentLength(text)))
  }

  /** A 2xx answer advertising byte ranges and the `%v` rendering of any size
      is probed as exactly that size, with ranges and without error. */
  lemma ProbeReadsAdvertisedSize(status: int, header: map<string, string>, body: Option<seq<byte>>, n: int)
    requires status <= 299
    requires HeaderGet(header, "Accept-Ranges") == "bytes"
    requires HeaderGet(header, "Content-Length") == FormatInt(n)
    ensures HasAcceptRanges(Answered(Response(status, header, body))) == ProbeResult(n, true, None)
  {
    AtoiFormatInt(n);
  }
}
