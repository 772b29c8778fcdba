/** What `WaybackMachineMiddleware` does to each request and response, as
    functions of the request, the response and the time window: the index
    (CDX) query built for an untagged request, the snapshot requests built
    from the index listing, and the reply to every response. */
module Mediation {
  import opened Wrappers
  import opened Text
  import opened Timestamps
  import opened Selection
  import opened Http

  const RobotsTxt := "https://web.archive.org/robots.txt"
  const CdxEndpoint := "https://web.archive.org/cdx/search/cdx"
  const CdxFields := "&output=json&fl=timestamp,original,statuscode,digest"
  const SnapshotPrefix := "https://web.archive.org/web/"

  predicate StartsWith(s: string, prefix: string) {
    |prefix| <= |s| && s[..|prefix|] == prefix
  }

  // ---------------------------------------------------------------------
  // process_request and build_cdx_request

  /** The URL the index is asked about: with a scheme, the text after the
      first `://` up to the next `:` (dropping a port), slashes stripped,
      falling back to the whole URL when that is empty; without a scheme,
      the URL with slashes stripped. */
  function BaseUrl(url: string): (b: string)
    ensures b != url ==> |b| > 0 ==> b[0] != '/' && b[|b| - 1] != '/'
    ensures Contains(url, "://") && b != url ==> b != "" && ':' !in b
  {
    match Find(url, "://")
    case Some(i) =>
      var host := BeforeColon(url[i + 3..]);
      StripKeepsAbsent(host, ':');
      var stripped := StripSlashes(host);
      if stripped == "" then url else stripped
    case None => StripSlashes(url)
  }

  /** Which part of the URL the index is asked about: without a scheme,
      the URL with slashes stripped; with one, the text after the first
      `://` up to the first colon after it (or the end), slashes stripped,
      or the whole URL when nothing is left. */
  lemma BaseUrlHostPart(url: string)
    ensures match Find(url, "://")
      case None => BaseUrl(url) == StripSlashes(url)
      case Some(i) =>
        var rest := url[i + 3..];
        exists k :: FirstColonAt(rest, k) &&
          BaseUrl(url) == (if StripSlashes(rest[..k]) == "" then url else StripSlashes(rest[..k]))
  {
    BaseUrlUnfold(url);
    if Find(url, "://").Some? {
      BeforeColonEnds(url[Find(url, "://").value + 3..]);
    }
  }

  lemma BaseUrlUnfold(url: string)
    ensures BaseUrl(url) == match Find(url, "://")
      case None => StripSlashes(url)
      case Some(i) =>
        var host := BeforeColon(url[i + 3..]);
        if StripSlashes(host) == "" then url else StripSlashes(host)
  {
  }

  lemma BeforeColonEnds(s: string)
    ensures var r := BeforeColon(s); r == s[..|r|] && FirstColonAt(s, |r|)
  {
  }

  /** `k` is where `s.split(':', 1)[0]` ends: at the first colon, or at
      the end of `s` when it has none. */
  predicate FirstColonAt(s: string, k: int) {
    0 <= k <= |s| && (k == |s| || s[k] == ':') && ':' !in s[..k]
  }

  /** `s.split(':', 1)[0]`. */
  function BeforeColon(s: string): (r: string)
    ensures ':' !in r && |r| <= |s| && r == s[..|r|]
    ensures |r| < |s| ==> s[|r|] == ':'
  {
    match Find(s, ":")
    case Some(j) =>
      assert ':' !in s[..j] by {
        forall m | 0 <= m < j ensures s[m] != ':' {
          assert !OccursAt(s, ":", m);
          assert s[m..m + 1] == [s[m]];
        }
      }
      s[..j]
    case None =>
      assert ':' !in s by {
        forall m | 0 <= m < |s| ensures s[m] != ':' {
          assert !OccursAt(s, ":", m);
          assert s[m..m + 1] == [s[m]];
        }
      }
      s
  }

  /** Whatever follows the first colon after the scheme is dropped: a port
      with the path after it, or the rest of a path or query holding a
      colon. */
  lemma BaseUrlDropsAfterColon(scheme: string, host: string, tail: string)
    requires ':' !in scheme && ':' !in host
    requires |host| > 0 && host[0] != '/' && host[|host| - 1] != '/'
    ensures BaseUrl(scheme + "://" + host + ":" + tail) == host
  {
    var rest := host + ":" + tail;
    assert scheme + "://" + host + ":" + tail == scheme + "://" + rest;
    SchemeFound(scheme, rest);
    BaseUrlUnfold(scheme + "://" + rest);
    HostBeforeColon(host, tail);
    StripPlain(host);
  }

  lemma SchemeFound(scheme: string, rest: string)
    requires ':' !in scheme
    ensures var url := scheme + "://" + rest;
      Find(url, "://") == Some(|scheme|) && url[|scheme| + 3..] == rest
  {
    var url := scheme + "://" + rest;
    var n := |scheme|;
    assert url[n..n + 3] == "://";
    assert forall j: nat :: j < n ==> url[j] == scheme[j];
    FirstAt(url, "://", n);
    assert url[n + 3..] == rest;
  }

  lemma HostBeforeColon(host: string, tail: string)
    requires ':' !in host
    ensures BeforeColon(host + ":" + tail) == host
  {
    var rest := host + ":" + tail;
    assert rest[|host|..|host| + 1] == ":";
    assert forall j: nat :: j < |host| ==> rest[j] == host[j];
    FirstAt(rest, ":", |host|);
    assert rest[..|host|] == host;
  }

  lemma StripPlain(s: string)
    requires |s| > 0 && s[0] != '/' && s[|s| - 1] != '/'
    ensures StripSlashes(s) == s
  {
  }

  lemma FirstAt(s: string, sub: string, i: nat)
    requires |sub| > 0 && OccursAt(s, sub, i) && forall j: nat :: j < i ==> s[j] != sub[0]
    ensures Find(s, sub) == Some(i)
  {
    forall j: nat | j < i && j + |sub| <= |s| ensures !OccursAt(s, sub, j) {
      assert s[j..j + |sub|][0] == s[j];
    }
  }

  lemma StripKeepsAbsent(s: string, c: char)
    requires c !in s
    ensures c !in StripSlashes(s)
  {
    var l := TrimLeftSlashes(s);
    assert c !in l by {
      forall m | 0 <= m < |l| ensures l[m] != c { assert l[m] == s[|s| - |l| + m]; }
    }
    var r := TrimRightSlashes(l);
    forall m | 0 <= m < |r| ensures r[m] != c { assert r[m] == l[m]; }
  }

  /** The index query URL asking about `encoded`, for the four columns. */
  function CdxUrl(encoded: string): string {
    CdxEndpoint + "?url=" + encoded + CdxFields
  }

  /** The `url` parameter of an index query URL, if `u` is one. */
  function CdxUrlParameter(u: string): Option<string> {
    var head := CdxEndpoint + "?url=";
    if |head| + |CdxFields| <= |u| && StartsWith(u, head) && u[|u| - |CdxFields|..] == CdxFields
    then Some(u[|head|..|u| - |CdxFields|])
    else None
  }

  /** The index query URL names exactly the URL it was built for. */
  lemma CdxUrlReadsBack(encoded: string)
    ensures CdxUrlParameter(CdxUrl(encoded)) == Some(encoded)
  {
    var head := CdxEndpoint + "?url=";
    var u := CdxUrl(encoded);
    assert u == head + encoded + CdxFields;
    assert u[..|head|] == head;
    assert u[|u| - |CdxFields|..] == CdxFields;
    assert u[|head|..|u| - |CdxFields|] == encoded;
  }

  /** The index query for `request`, tagged with it; `encode` is
      `pathname2url`. */
  function CdxRequest(request: Request, encode: string -> string): (r: Request)
    ensures r.dontFilter
    ensures r.meta == Meta(Some(request), true, None, None, 0, true)
    ensures CdxUrlParameter(r.url) == Some(encode(BaseUrl(request.url)))
  {
    CdxUrlReadsBack(encode(BaseUrl(request.url)));
    Request(CdxUrl(encode(BaseUrl(request.url))), Meta(Some(request), true, None, None, 0, true), true)
  }

  /** `process_request`: None lets the request through unchanged. */
  function ProcessRequest(request: Request, encode: string -> string): (r: Option<Request>)
    ensures r.None? <==> request.url == RobotsTxt || HasWaybackUrl(request.meta) || request.meta.cdxRequest
    ensures r.Some? ==> && r.value.meta.cdxRequest && r.value.meta.originalRequest == Some(request)
                        && r.value.dontFilter && !HasWaybackUrl(r.value.meta)
    ensures r.Some? ==> CdxUrlParameter(r.value.url) == Some(encode(BaseUrl(request.url)))
  {
    if request.url == RobotsTxt then None
    else if HasWaybackUrl(request.meta) then None
    else if request.meta.cdxRequest then None
    else Some(CdxRequest(request, encode))
  }

  // ---------------------------------------------------------------------
  // build_dict and build_snapshot_requests

  /** The dictionary `build_dict` fills from `keys` and `row`, without its
      `datetime` entry: a later column with the same key overwrites an
      earlier one. */
  function Record(keys: seq<string>, row: seq<string>): map<string, string>
    requires |row| >= |keys|
    decreases |keys|
  {
    if keys == [] then map[]
    else Record(keys[..|keys| - 1], row)[keys[|keys| - 1] := row[|keys| - 1]]
  }

  /** `datetime.strptime(s, '%Y%m%d%H%M%S')` with its failure as None. */
  function Parsed(s: string): (r: Option<UtcDateTime>)
    ensures r.Some? <==> ParseTimestamp(s).Some?
  {
    match ParseTimestamp(s)
    case None => None
    case Some(dt) => Some(dt)
  }

  /** The snapshot `build_dict` makes from one row; None when the row is
      shorter than the header (IndexError) or a column the selector reads
      is missing (KeyError). */
  function ToSnapshot(keys: seq<string>, row: seq<string>): Option<Snapshot>
  {
    if |row| < |keys| then None
    else
      var d := Record(keys, row);
      if "timestamp" !in d || "statuscode" !in d || "digest" !in d then None
      else Some(Snapshot(Parsed(d["timestamp"]), d["timestamp"],
                         if "original" in d then Some(d["original"]) else None,
                         d["statuscode"], d["digest"]))
  }

  function ToSnapshots(keys: seq<string>, rows: seq<seq<string>>): (r: Option<seq<Snapshot>>)
    ensures r.Some? ==> |r.value| == |rows|
    ensures r.Some? <==> forall k :: 0 <= k < |rows| ==> ToSnapshot(keys, rows[k]).Some?
    ensures r.Some? ==> forall k :: 0 <= k < |rows| ==> r.value[k] == ToSnapshot(keys, rows[k]).value
  {
    if rows == [] then Some([])
    else
      match ToSnapshots(keys, rows[..|rows| - 1])
      case None => None
      case Some(prefix) =>
        match ToSnapshot(keys, rows[|rows| - 1])
        case None => None
        case Some(s) => Some(prefix + [s])
  }

  /** `snapshot_url_template`. */
  function SnapshotUrl(timestamp: string, original: string): string {
    SnapshotPrefix + timestamp + "id_/" + original
  }

  /** The original request re-aimed at one archived copy and tagged with
      it, its archive URL and its capture time. */
  function SnapshotRequest(orig: Request, s: Snapshot): Request
    requires s.original.Some?
  {
    var url := SnapshotUrl(s.timestamp, s.original.value);
    orig.(url := url, dontFilter := true,
          meta := orig.meta.(originalRequest := Some(orig), waybackUrl := Some(url),
                             waybackTime := s.datetime, handlesErrors := true))
  }

  /** The loop over the selected snapshots: one without an `original`
      column, or a `meta` without the original request, is skipped. */
  function RequestsFor(snaps: seq<Snapshot>, meta: Meta): seq<Request>
  {
    if snaps == [] then []
    else
      var last := snaps[|snaps| - 1];
      RequestsFor(snaps[..|snaps| - 1], meta) +
      (if last.original.Some? && meta.originalRequest.Some?
       then [SnapshotRequest(meta.originalRequest.value, last)] else [])
  }

  /** `build_snapshot_requests`; None when an exception escapes it. */
  function SnapshotRequests(body: Body, meta: Meta, lo: int, hi: int): Option<seq<Request>>
  {
    match body
    case Unparsable => Some([])
    case OtherJson(length) => if length.Some? && length.value < 2 then Some([]) else None
    case Listing(data) =>
      if |data| < 2 then Some([])
      else
        match ToSnapshots(data[0], data[1..])
        case None => None
        case Some(snaps) => Some(RequestsFor(Selected(snaps, lo, hi), meta))
  }

  // ---------------------------------------------------------------------
  // process_response

  /** What `process_response` returns: the response unchanged, another
      response, or a request to send instead. */
  datatype Reply = Keep | NewResponse(response: Response) | NewRequest(request: Request)

  /** The reply and the snapshot requests handed to the scheduler. */
  datatype Outcome = Outcome(reply: Reply, enqueue: seq<Request>)

  const MaxRetries := 3

  function Retry(request: Request): Request {
    request.(dontFilter := true, meta := request.meta.(retryTimes := request.meta.retryTimes + 1))
  }

  /** `process_response` for the window [lo, hi]. */
  function HandleResponse(request: Request, response: Response, lo: int, hi: int): Outcome
  {
    var meta := request.meta;
    if response.status >= 400 && !meta.cdxRequest then
      if response.status == 404 then Outcome(Keep, [])
      else if response.status >= 500 && meta.retryTimes < MaxRetries then Outcome(NewRequest(Retry(request)), [])
      else Outcome(Keep, [])
    else if meta.cdxRequest then
      match SnapshotRequests(response.body, meta, lo, hi)
      case None => Outcome(Keep, [])
      case Some(reqs) =>
        match meta.originalRequest
        case None => Outcome(Keep, [])
        case Some(orig) =>
          // `Response(url, status=...)` has an empty body, which is not JSON.
          if reqs == [] then Outcome(NewResponse(Response(orig.url, 404, Unparsable)), [])
          else Outcome(NewResponse(Response(orig.url, 200, Unparsable)), reqs)
    else if HasWaybackUrl(meta) && meta.originalRequest.Some? then
      Outcome(NewResponse(response.(url := meta.originalRequest.value.url)), [])
    else Outcome(Keep, [])
  }

  // ---------------------------------------------------------------------
  // Properties

  /** A key maps to the value in the column of its last occurrence, and
      only header keys are present. */
  lemma {:induction false} RecordLookup(keys: seq<string>, row: seq<string>, i: nat)
    requires |row| >= |keys| && i < |keys|
    requires forall j :: i < j < |keys| ==> keys[j] != keys[i]
    ensures keys[i] in Record(keys, row) && Record(keys, row)[keys[i]] == row[i]
    decreases |keys|
  {
    var n := |keys| - 1;
    if i < n {
      assert keys[..n][i] == keys[i];
      RecordLookup(keys[..n], row, i);
    }
  }

  lemma {:induction false} RecordKeys(keys: seq<string>, row: seq<string>)
    requires |row| >= |keys|
    ensures forall k :: k in Record(keys, row) <==> k in keys
    decreases |keys|
  {
    if keys != [] {
      var n := |keys| - 1;
      RecordKeys(keys[..n], row);
      assert keys == keys[..n] + [keys[n]];
    }
  }

  /** Every column of a row whose key is not repeated later lands in the
      snapshot under its own name; a header without one of the columns the
      selector reads makes the row fail. */
  lemma SnapshotColumns(keys: seq<string>, row: seq<string>, ts: nat, st: nat, dg: nat)
    requires |row| >= |keys| && ts < |keys| && st < |keys| && dg < |keys|
    requires keys[ts] == "timestamp" && keys[st] == "statuscode" && keys[dg] == "digest"
    requires forall j :: 0 <= j < |keys| && (keys[j] == "timestamp" || keys[j] == "statuscode" || keys[j] == "digest") ==>
               j == ts || j == st || j == dg
    ensures ToSnapshot(keys, row).Some?
    ensures var s := ToSnapshot(keys, row).value;
      && s.timestamp == row[ts] && s.statuscode == row[st] && s.digest == row[dg]
      && (s.datetime.Some? <==> ParseTimestamp(row[ts]).Some?)
  {
    RecordLookup(keys, row, ts);
    RecordLookup(keys, row, st);
    RecordLookup(keys, row, dg);
  }

  lemma MissingColumnFails(keys: seq<string>, row: seq<string>)
    requires "timestamp" !in keys || "statuscode" !in keys || "digest" !in keys
    ensures ToSnapshot(keys, row).None?
  {
    if |row| >= |keys| {
      RecordKeys(keys, row);
    }
  }

  lemma SnapshotUrlShape(timestamp: string, original: string)
    ensures var u := SnapshotUrl(timestamp, original);
      StartsWith(u, SnapshotPrefix) && u[|SnapshotPrefix|..] == timestamp + "id_/" + original
  {
    var u := SnapshotUrl(timestamp, original);
    assert u == SnapshotPrefix + (timestamp + "id_/" + original);
  }

  /** The capture timestamp and the original URL of an archive URL, if `u`
      is one: the text between the prefix and the first `id_/`, and the
      text after it. */
  function SnapshotUrlParts(u: string): Option<(string, string)> {
    if StartsWith(u, SnapshotPrefix) then
      var rest := u[|SnapshotPrefix|..];
      match Find(rest, "id_/")
      case None => None
      case Some(i) => Some((rest[..i], rest[i + 4..]))
    else None
  }

  /** An archive URL names exactly the capture and the page it was built
      for, whenever the timestamp has no `i` (a timestamp is digits). */
  lemma SnapshotUrlReadsBack(timestamp: string, original: string)
    requires 'i' !in timestamp
    ensures SnapshotUrlParts(SnapshotUrl(timestamp, original)) == Some((timestamp, original))
  {
    var u := SnapshotUrl(timestamp, original);
    var rest := timestamp + "id_/" + original;
    assert u == SnapshotPrefix + rest;
    assert u[..|SnapshotPrefix|] == SnapshotPrefix;
    assert u[|SnapshotPrefix|..] == rest;
    assert rest[|timestamp|..|timestamp| + 4] == "id_/";
    forall j: nat | j < |timestamp| ensures rest[j] != "id_/"[0] {
      assert rest[j] == timestamp[j];
    }
    FirstAt(rest, "id_/", |timestamp|);
    assert rest[..|timestamp|] == timestamp;
    assert rest[|timestamp| + 4..] == original;
  }

  /** The capture time of a row is its `timestamp` column, parsed. */
  lemma ToSnapshotTime(keys: seq<string>, row: seq<string>)
    requires ToSnapshot(keys, row).Some?
    ensures var s := ToSnapshot(keys, row).value; s.datetime == Parsed(s.timestamp)
  {
  }

  /** A request built for a snapshot of `orig`: aimed at an archive URL,
      tagged with that URL and with `orig`, exempt from the duplicate filter. */
  predicate SnapshotRequestOf(r: Request, orig: Request) {
    && r.meta.originalRequest == Some(orig)
    && r.meta.waybackUrl == Some(r.url)
    && StartsWith(r.url, SnapshotPrefix)
    && r.dontFilter && r.meta.handlesErrors
    && r.meta.cdxRequest == orig.meta.cdxRequest
    && r.meta.retryTimes == orig.meta.retryTimes
  }

  lemma {:induction false} RequestsForTagged(snaps: seq<Snapshot>, meta: Meta)
    ensures var reqs := RequestsFor(snaps, meta);
      reqs != [] ==>
        && meta.originalRequest.Some?
        && forall j :: 0 <= j < |reqs| ==> SnapshotRequestOf(reqs[j], meta.originalRequest.value)
    ensures var reqs := RequestsFor(snaps, meta);
      forall j :: 0 <= j < |reqs| ==>
        exists k :: 0 <= k < |snaps| && snaps[k].original.Some? && meta.originalRequest.Some?
                    && reqs[j] == SnapshotRequest(meta.originalRequest.value, snaps[k])
  {
    if snaps != [] {
      var n := |snaps| - 1;
      RequestsForTagged(snaps[..n], meta);
      var last := snaps[n];
      if last.original.Some? && meta.originalRequest.Some? {
        SnapshotUrlShape(last.timestamp, last.original.value);
      }
    }
  }

  /** When the original request is known and every selected row has an
      `original` column, there is one request per selected snapshot, in
      order, carrying its archive URL and capture time. */
  lemma {:induction false} RequestsForAll(snaps: seq<Snapshot>, meta: Meta)
    requires meta.originalRequest.Some?
    requires forall j :: 0 <= j < |snaps| ==> snaps[j].original.Some?
    ensures var reqs := RequestsFor(snaps, meta);
      && |reqs| == |snaps|
      && forall j :: 0 <= j < |snaps| ==>
           && reqs[j].url == SnapshotUrl(snaps[j].timestamp, snaps[j].original.value)
           && reqs[j].meta.waybackTime == snaps[j].datetime
  {
    if snaps != [] {
      var n := |snaps| - 1;
      RequestsForAll(snaps[..n], meta);
    }
  }

  /** Loop avoidance: the index query and every snapshot request pass
      through `process_request` untouched. */
  lemma TaggedRequestsPassThrough(request: Request, response: Response, lo: int, hi: int, encode: string -> string)
    ensures ProcessRequest(request, encode).Some? ==>
              ProcessRequest(ProcessRequest(request, encode).value, encode).None?
    ensures forall r :: r in HandleResponse(request, response, lo, hi).enqueue ==> ProcessRequest(r, encode).None?
  {
    var out := HandleResponse(request, response, lo, hi);
    if out.enqueue != [] {
      var reqs := SnapshotRequests(response.body, request.meta, lo, hi).value;
      assert out.enqueue == reqs;
      var snaps := ToSnapshots(response.body.data[0], response.body.data[1..]).value;
      RequestsForTagged(Selected(snaps, lo, hi), request.meta);
      forall r | r in out.enqueue ensures HasWaybackUrl(r.meta) {
        var j :| 0 <= j < |reqs| && reqs[j] == r;
      }
    }
  }

  /** The retry rule: a response of status 500 or above to a request that is
      not an index query, retried fewer than three times, is answered by the
      same request again with the count raised by one; no other response is. */
  lemma RetryRule(request: Request, response: Response, lo: int, hi: int)
    ensures var out := HandleResponse(request, response, lo, hi);
      out.reply.NewRequest? <==> !request.meta.cdxRequest && response.status >= 500 && request.meta.retryTimes < MaxRetries
    ensures var out := HandleResponse(request, response, lo, hi);
      out.reply.NewRequest? ==>
        && out.enqueue == []
        && out.reply.request.url == request.url && out.reply.request.dontFilter
        && out.reply.request.meta.retryTimes == request.meta.retryTimes + 1
        && out.reply.request.meta.(retryTimes := request.meta.retryTimes) == request.meta
  {
  }

  /** `n` successive retries of `request`. */
  function Retried(request: Request, n: nat): (r: Request)
    ensures r.url == request.url && r.meta.retryTimes == request.meta.retryTimes + n
  {
    if n == 0 then request else Retry(Retried(request, n - 1))
  }

  /** A request sent fresh and answered with a server error every time is
      sent three more times, and the fourth error response is handed on:
      four attempts in all. */
  lemma {:induction false} RetriesAreBounded(request: Request, response: Response, lo: int, hi: int, n: nat)
    requires !request.meta.cdxRequest && request.meta.retryTimes == 0 && response.status >= 500
    requires n <= MaxRetries
    ensures HandleResponse(Retried(request, n), response, lo, hi).reply ==
              if n < MaxRetries then NewRequest(Retried(request, n + 1)) else Keep
  {
    var r := Retried(request, n);
    assert !r.meta.cdxRequest by { RetriedKeepsTags(request, n); }
  }

  lemma {:induction false} RetriedKeepsTags(request: Request, n: nat)
    ensures Retried(request, n).meta.cdxRequest == request.meta.cdxRequest
    ensures Retried(request, n).meta.waybackUrl == request.meta.waybackUrl
    ensures Retried(request, n).meta.originalRequest == request.meta.originalRequest
  {
    if n > 0 {
      RetriedKeepsTags(request, n - 1);
    }
  }

  /** An index response is never retried and never passed on as it is when
      it parses: it becomes a 404 at the original URL when no snapshot
      request results, and a 200 there, with the requests enqueued,
      otherwise. */
  lemma IndexResponseAnswered(request: Request, response: Response, lo: int, hi: int)
    requires request.meta.cdxRequest && request.meta.originalRequest.Some?
    requires SnapshotRequests(response.body, request.meta, lo, hi).Some?
    ensures var reqs := SnapshotRequests(response.body, request.meta, lo, hi).value;
      var orig := request.meta.originalRequest.value;
      HandleResponse(request, response, lo, hi) ==
        Outcome(NewResponse(Response(orig.url, if reqs == [] then 404 else 200, Unparsable)), reqs)
  {
  }

  /** Scenario: an index listing with a header and no rows yields a 404 at
      the original URL and no snapshot request, whatever its status. */
  lemma EmptyIndexIsNotFound(request: Request, status: int, keys: seq<string>, lo: int, hi: int)
    requires request.meta.cdxRequest && request.meta.originalRequest.Some?
    ensures var out := HandleResponse(request, Response("", status, Listing([keys])), lo, hi);
      out == Outcome(NewResponse(Response(request.meta.originalRequest.value.url, 404, Unparsable)), [])
  {
  }

  /** What a response enqueues comes from a parsed listing: the requests
      for its selected rows. */
  lemma EnqueuedFromListing(request: Request, response: Response, lo: int, hi: int)
    requires HandleResponse(request, response, lo, hi).enqueue != []
    ensures && response.body.Listing? && |response.body.data| >= 2
            && ToSnapshots(response.body.data[0], response.body.data[1..]).Some?
    ensures HandleResponse(request, response, lo, hi).enqueue ==
              RequestsFor(Selected(ToSnapshots(response.body.data[0], response.body.data[1..]).value, lo, hi),
                          request.meta)
  {
  }

  /** Only index responses enqueue anything. */
  lemma OnlyIndexResponsesEnqueue(request: Request, response: Response, lo: int, hi: int)
    ensures HandleResponse(request, response, lo, hi).enqueue != [] ==> request.meta.cdxRequest
  {
  }

  /** A successful snapshot response comes back at the original request's
      URL with its status and body; an error response to a snapshot request
      keeps the archive URL. */
  lemma SnapshotResponseRestored(request: Request, response: Response, lo: int, hi: int)
    requires !request.meta.cdxRequest && HasWaybackUrl(request.meta) && request.meta.originalRequest.Some?
    ensures var out := HandleResponse(request, response, lo, hi);
      response.status < 400 ==>
        out == Outcome(NewResponse(Response(request.meta.originalRequest.value.url, response.status, response.body)), [])
    ensures var out := HandleResponse(request, response, lo, hi);
      response.status >= 400 ==> !out.reply.NewResponse?
  {
  }

  /** End to end: a snapshot request enqueued for an untagged request `x`
      is itself let through, and a successful answer to it reaches the
      spider at the URL of `x`. */
  lemma IdentityRestored(x: Request, encode: string -> string, index: Response, lo: int, hi: int,
                         r: Request, answer: Response)
    requires ProcessRequest(x, encode).Some?
    requires r in HandleResponse(ProcessRequest(x, encode).value, index, lo, hi).enqueue
    requires answer.status < 400
    ensures ProcessRequest(r, encode).None?
    ensures HandleResponse(r, answer, lo, hi) == Outcome(NewResponse(answer.(url := x.url)), [])
  {
    var cdx := ProcessRequest(x, encode).value;
    TaggedRequestsPassThrough(cdx, index, lo, hi, encode);
    EnqueuedAreSnapshotRequests(cdx, index, lo, hi, r);
    SnapshotResponseRestored(r, answer, lo, hi);
  }

  /** Every request enqueued for an index response is a snapshot request
      of the request the index query was made for. */
  lemma EnqueuedAreSnapshotRequests(request: Request, response: Response, lo: int, hi: int, r: Request)
    requires request.meta.originalRequest.Some?
    requires r in HandleResponse(request, response, lo, hi).enqueue
    ensures SnapshotRequestOf(r, request.meta.originalRequest.value)
  {
    var reqs := SnapshotRequests(response.body, request.meta, lo, hi).value;
    var snaps := ToSnapshots(response.body.data[0], response.body.data[1..]).value;
    RequestsForTagged(Selected(snaps, lo, hi), request.meta);
    var j :| 0 <= j < |reqs| && reqs[j] == r;
  }

  /** With an `original` column in the header, the requests enqueued for an
      index listing follow the selected snapshots one to one: every one
      after the first carries a capture time inside the window. */
  lemma EnqueuedWithinWindow(request: Request, response: Response, lo: int, hi: int)
    requires request.meta.cdxRequest && request.meta.originalRequest.Some?
    requires response.body.Listing? && |response.body.data| >= 2 && "original" in response.body.data[0]
    ensures var out := HandleResponse(request, response, lo, hi);
      forall j :: 0 < j < |out.enqueue| ==>
        out.enqueue[j].meta.waybackTime.Some? && lo <= Epoch(out.enqueue[j].meta.waybackTime.value) <= hi
  {
    var data := response.body.data;
    var keys := data[0];
    var out := HandleResponse(request, response, lo, hi);
    match ToSnapshots(keys, data[1..])
    case None =>
    case Some(snaps) =>
      var sel := Selected(snaps, lo, hi);
      forall k | 0 <= k < |snaps| ensures snaps[k].original.Some? {
        RecordKeys(keys, data[1..][k]);
      }
      SelectedIsSubsequence(snaps, lo, hi);
      SelectedWithinWindow(snaps, lo, hi);
      RequestsForAll(sel, request.meta);
      assert out.enqueue == RequestsFor(sel, request.meta) || out.enqueue == [];
  }
}
