// Conditional fetching: one request with validators, and a second one without them when the
// answer "not modified" is of no use.
module HttpFetch {
  import opened Options
  import opened Framing

  datatype Response = Response(status: nat, body: Bytes, etag: Option<string>, lastModified: Option<string>)
  datatype Request = Request(ifNoneMatch: Option<string>, ifModifiedSince: Option<string>)
  datatype Answer = Failed | Answered(response: Response)
  datatype Fetched = Network(response: Response) | CacheNotModified | FallbackCache

  const NOT_MODIFIED: nat := 304

  // What the server does with the first and the second request.
  type Client = (nat, Request) -> Answer

  predicate IsSuccess(status: nat) { 200 <= status < 300 }

  function FetchWithConditionalCache(client: Client, etag: Option<string>, lastModified: Option<string>,
          hasUsableCache: bool): Fetched
  {
    match client(0, Request(etag, lastModified))
    case Failed => FallbackCache
    case Answered(response) =>
      if response.status != NOT_MODIFIED then Network(response)
      else if hasUsableCache then CacheNotModified
      else
        match client(1, Request(None, None))
        case Answered(again) => Network(again)
        case Failed => FallbackCache
  }

  // The cache stands in only when there is one, and no body is taken from a "not modified" answer
  // that a validator could have caused.
  lemma FetchMeaning(client: Client, etag: Option<string>, lastModified: Option<string>, usable: bool)
    ensures var f := FetchWithConditionalCache(client, etag, lastModified, usable);
            && (f.CacheNotModified? ==> usable)
            && (f.Network? && f.response.status == NOT_MODIFIED ==>
              !usable && client(1, Request(None, None)) == Answered(f.response))
            && (f.FallbackCache? <==>
                  client(0, Request(etag, lastModified)).Failed?
                  || (!usable && client(0, Request(etag, lastModified)).response.status == NOT_MODIFIED
                      && client(1, Request(None, None)).Failed?))
  {
  }
}
