/** The Scrapy requests and responses the middleware sees, reduced to the
    parts it reads or writes. The metadata dictionary becomes a record with
    one field per key the middleware uses. */
module Http {
  import opened Wrappers
  import opened Timestamps

  /** `request.meta`: the keys set and read by the middleware. An absent
      `retry_times` reads as 0, an absent flag as false. */
  datatype Meta = Meta(
    originalRequest: Option<Request>,   // wayback_machine_original_request
    cdxRequest: bool,                   // wayback_machine_cdx_request
    waybackUrl: Option<string>,         // wayback_machine_url
    waybackTime: Option<UtcDateTime>,   // wayback_machine_time
    retryTimes: int,                    // retry_times
    handlesErrors: bool)                // handle_httpstatus_list = 400..599

  datatype Request = Request(url: string, meta: Meta, dontFilter: bool)

  /** A response body as `json.loads(response.text)` sees it: a list of
      rows of strings, text that is not JSON (the empty body among them),
      or some other JSON value (with its `len()`, when it has one). */
  datatype Body = Listing(data: seq<seq<string>>) | Unparsable | OtherJson(length: Option<nat>)

  datatype Response = Response(url: string, status: int, body: Body)

  /** The metadata of a request nobody has tagged. */
  const Untagged := Meta(None, false, None, None, 0, false)

  /** Python truthiness of `meta.get('wayback_machine_url')`. */
  predicate HasWaybackUrl(m: Meta) {
    m.waybackUrl.Some? && m.waybackUrl.value != ""
  }
}
