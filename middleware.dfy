/** The middleware object itself: its configured time window and the
    methods Scrapy calls, written as the loops of the original and proved
    equal to the functions of `Selection` and `Mediation`. */
module Middleware {
  import opened Wrappers
  import opened Text
  import opened Timestamps
  import opened Selection
  import opened Http
  import opened Mediation

  /** The loop variables of `filter_snapshots` agree with a scan state. */
  predicate Mirrors(rows: seq<Snapshot>, st: ScanState, filtered: seq<Snapshot>,
                    initial: Option<Snapshot>, lastDigest: Option<string>)
    requires Below(st, |rows|)
  {
    && filtered == Gather(rows, st.out)
    && lastDigest == st.lastDigest
    && initial == (if st.anchor.Some? then Some(rows[st.anchor.value]) else None)
  }

  /** A row that fails the datetime or status test leaves the scan as it was. */
  lemma SkipRow(rows: seq<Snapshot>, k: nat, lo: int, hi: int, st: ScanState)
    requires k < |rows| && !Eligible(rows[k]) && st == Scan(Views(rows), k, lo, hi)
    ensures Scan(Views(rows), k + 1, lo, hi) == st
  {
  }

  /** An eligible row: `Cross` first, then the time and digest checks. */
  lemma CrossRow(rows: seq<Snapshot>, k: nat, lo: int, hi: int, st: ScanState) returns (c: ScanState)
    requires k < |rows| && Eligible(rows[k])
    requires st == Scan(Views(rows), k, lo, hi) && !st.stopped
    ensures c == Cross(Views(rows), k, st, lo) && Below(c, |rows|)
    ensures Instant(rows[k]) < lo ==> Scan(Views(rows), k + 1, lo, hi) == c
    ensures lo <= Instant(rows[k]) && Instant(rows[k]) > hi ==> Scan(Views(rows), k + 1, lo, hi).stopped
    ensures lo <= Instant(rows[k]) <= hi && c.lastDigest == Some(rows[k].digest) ==>
              Scan(Views(rows), k + 1, lo, hi) == c
    ensures lo <= Instant(rows[k]) <= hi && c.lastDigest != Some(rows[k].digest) ==>
              Scan(Views(rows), k + 1, lo, hi) == c.(out := c.out + [k], lastDigest := Some(rows[k].digest))
  {
    c := Cross(Views(rows), k, st, lo);
  }

  /** The first row after the window start releases the pending anchor. */
  lemma ReleaseAnchor(rows: seq<Snapshot>, k: nat, st: ScanState, lo: int, initial: Option<Snapshot>,
                      lastDigest: Option<string>)
    requires k < |rows| && Eligible(rows[k]) && Instant(rows[k]) > lo
    requires Below(st, |rows|) && Mirrors(rows, st, [], initial, lastDigest) && initial.Some?
    ensures Mirrors(rows, Cross(Views(rows), k, st, lo), [initial.value], initial, Some(initial.value.digest))
  {
  }

  /** A row at or before the window start, while nothing is emitted,
      becomes the pending anchor. */
  lemma NewAnchor(rows: seq<Snapshot>, k: nat, st: ScanState, lo: int)
    requires k < |rows| && Eligible(rows[k]) && Instant(rows[k]) <= lo
    requires Below(st, |rows|) && st.out == []
    ensures Cross(Views(rows), k, st, lo) == st.(anchor := Some(k))
  {
  }

  /** Emitting a row extends the mirrored list by that row. */
  lemma EmitRow(rows: seq<Snapshot>, k: nat, c: ScanState, filtered: seq<Snapshot>)
    requires k < |rows| && Below(c, |rows|)
    requires filtered == Gather(rows, c.out) + [rows[k]]
    ensures filtered == Gather(rows, c.out + [k])
  {
  }

  class WaybackMachineMiddleware {
    /** `self.time_range`: the window start and end in POSIX seconds. */
    var timeRange: TimeRange
    /** `pathname2url`, the platform's percent-encoding. */
    const pathnameToUrl: string -> string

    constructor(range: TimeRange, encode: string -> string)
      ensures timeRange == range && pathnameToUrl == encode
    {
      timeRange := range;
      pathnameToUrl := encode;
    }

    /** `__init__`: the WAYBACK_MACHINE_TIME_RANGE setting must be present,
        truthy and parsable, or the middleware is not configured. */
    static method Create(setting: Option<TimeSetting>, encode: string -> string)
      returns (r: Result<WaybackMachineMiddleware, ConfigError>)
      ensures r.Failure? <==> InitTimeRange(setting).Failure?
      ensures r.Failure? ==> r.error == InitTimeRange(setting).error
      ensures r.Success? ==> fresh(r.value) && r.value.timeRange == InitTimeRange(setting).value
                             && r.value.pathnameToUrl == encode
    {
      if setting.None? || IsFalsy(setting.value) {
        return Failure(NotConfigured);
      }
      var m := new WaybackMachineMiddleware(TimeRange(0, 0), encode);
      var error := m.SetTimeRange(setting.value);
      if error.Some? {
        return Failure(error.value);
      }
      return Success(m);
    }

    /** `set_time_range`: the window is replaced only when every value parses. */
    method SetTimeRange(setting: TimeSetting) returns (error: Option<ConfigError>)
      modifies this
      ensures ParseTimeRange(setting).Success? ==> error.None? && timeRange == ParseTimeRange(setting).value
      ensures ParseTimeRange(setting).Failure? ==>
                error == Some(ParseTimeRange(setting).error) && timeRange == old(timeRange)
    {
      var values := match setting
        case Scalar(v) => [v, v]
        case Listed(vs) => vs;
      var parsed := ParseAll(values);
      if None in parsed {
        return Some(InvalidFormat);
      }
      if |parsed| < 2 {
        return Some(MissingBound);
      }
      timeRange := TimeRange(parsed[0].value, parsed[1].value);
      return None;
    }

    /** `filter_snapshots`: one pass that keeps the pending anchor, skips
        repeated digests and breaks at the first row past the window. */
    method FilterSnapshots(snapshots: seq<Snapshot>) returns (filtered: seq<Snapshot>)
      ensures filtered == Selected(snapshots, timeRange.start, timeRange.end)
    {
      var lo, hi := timeRange.start, timeRange.end;
      filtered := [];
      var initial: Option<Snapshot> := None;
      var lastDigest: Option<string> := None;
      ghost var st := Start;
      for k := 0 to |snapshots|
        invariant st == Scan(Views(snapshots), k, lo, hi) && !st.stopped
        invariant Mirrors(snapshots, st, filtered, initial, lastDigest)
      {
        var snapshot := snapshots[k];
        if snapshot.datetime.None? {
          SkipRow(snapshots, k, lo, hi, st);
          continue;
        }
        var timestamp := Epoch(snapshot.datetime.value);
        if !IsDigits(snapshot.statuscode) {
          SkipRow(snapshots, k, lo, hi, st);
          continue;
        }
        var statusCode := DigitsValue(snapshot.statuscode);
        if statusCode >= 300 {
          SkipRow(snapshots, k, lo, hi, st);
          continue;
        }
        ghost var c := CrossRow(snapshots, k, lo, hi, st);
        if filtered == [] {
          if timestamp > lo {
            if initial.Some? {
              ReleaseAnchor(snapshots, k, st, lo, initial, lastDigest);
              filtered := filtered + [initial.value];
              lastDigest := Some(initial.value.digest);
            }
          } else {
            NewAnchor(snapshots, k, st, lo);
            initial := Some(snapshot);
          }
        }
        assert Mirrors(snapshots, c, filtered, initial, lastDigest);
        if timestamp < lo {
          st := c;
          continue;
        }
        if timestamp > hi {
          StoppedStays(Views(snapshots), k + 1, |snapshots|, lo, hi);
          return;
        }
        if lastDigest == Some(snapshot.digest) {
          st := c;
          continue;
        }
        lastDigest := Some(snapshot.digest);
        filtered := filtered + [snapshot];
        EmitRow(snapshots, k, c, filtered);
        st := c.(out := c.out + [k], lastDigest := lastDigest);
      }
    }

    /** `build_dict`: the row's columns under the header's keys, with the
        `timestamp` column parsed as it is read. */
    method BuildDict(keys: seq<string>, row: seq<string>) returns (r: Option<Snapshot>)
      ensures r == ToSnapshot(keys, row)
    {
      var d: map<string, string> := map[];
      var datetime: Option<UtcDateTime> := None;
      for i := 0 to |keys|
        invariant i <= |row|
        invariant d == Record(keys[..i], row)
        invariant datetime == if "timestamp" in d then Parsed(d["timestamp"]) else None
      {
        if i >= |row| {
          return None;
        }
        if keys[i] == "timestamp" {
          datetime := Parsed(row[i]);
        }
        d := d[keys[i] := row[i]];
        assert keys[..i + 1][..i] == keys[..i];
      }
      assert keys[..|keys|] == keys;
      if "timestamp" !in d || "statuscode" !in d || "digest" !in d {
        return None;
      }
      var original := if "original" in d then Some(d["original"]) else None;
      return Some(Snapshot(datetime, d["timestamp"], original, d["statuscode"], d["digest"]));
    }

    /** `build_snapshot_requests`: None when an exception escapes it. */
    method BuildSnapshotRequests(body: Body, meta: Meta) returns (r: Option<seq<Request>>)
      ensures r == SnapshotRequests(body, meta, timeRange.start, timeRange.end)
    {
      match body
      case Unparsable =>
        return Some([]);
      case OtherJson(length) =>
        if length.Some? && length.value < 2 {
          return Some([]);
        }
        return None;
      case Listing(data) =>
        if |data| < 2 {
          return Some([]);
        }
        var snapshots := BuildDicts(data[0], data[1..]);
        if snapshots.None? {
          return None;
        }
        var filtered := FilterSnapshots(snapshots.value);
        var requests := RequestsOf(filtered, meta);
        return Some(requests);
    }

    /** The first loop of `build_snapshot_requests`: every row after the
        header through `build_dict`; None when one of them raises. */
    method BuildDicts(keys: seq<string>, rows: seq<seq<string>>) returns (r: Option<seq<Snapshot>>)
      ensures r == ToSnapshots(keys, rows)
    {
      var snapshots: seq<Snapshot> := [];
      for k := 0 to |rows|
        invariant ToSnapshots(keys, rows[..k]) == Some(snapshots)
      {
        var snapshot := BuildDict(keys, rows[k]);
        if snapshot.None? {
          return None;
        }
        snapshots := snapshots + [snapshot.value];
        assert rows[..k + 1][..k] == rows[..k];
      }
      assert rows[..|rows|] == rows;
      return Some(snapshots);
    }

    /** The second loop of `build_snapshot_requests`: a copy of the original
        request per selected snapshot, aimed at the archived copy. */
    static method RequestsOf(filtered: seq<Snapshot>, meta: Meta) returns (requests: seq<Request>)
      ensures requests == RequestsFor(filtered, meta)
    {
      requests := [];
      for j := 0 to |filtered|
        invariant requests == RequestsFor(filtered[..j], meta)
      {
        assert filtered[..j + 1][..j] == filtered[..j];
        var snapshot := filtered[j];
        if snapshot.original.None? || meta.originalRequest.None? {
          continue;
        }
        var url := SnapshotUrl(snapshot.timestamp, snapshot.original.value);
        var originalRequest := meta.originalRequest.value;
        var snapshotRequest := originalRequest.(url := url, dontFilter := true);
        snapshotRequest := snapshotRequest.(meta := snapshotRequest.meta.(
          originalRequest := Some(originalRequest), waybackUrl := Some(url),
          waybackTime := snapshot.datetime, handlesErrors := true));
        requests := requests + [snapshotRequest];
      }
      assert filtered[..|filtered|] == filtered;
    }

    /** `process_response`, with the scheduler's queue as the `enqueue`
        part of the outcome. */
    method ProcessResponse(request: Request, response: Response) returns (out: Outcome)
      ensures out == HandleResponse(request, response, timeRange.start, timeRange.end)
    {
      var meta := request.meta;
      if response.status >= 400 && !meta.cdxRequest {
        if response.status == 404 {
          return Outcome(Keep, []);
        }
        if response.status >= 500 {
          var retries := meta.retryTimes;
          if retries < MaxRetries {
            meta := meta.(retryTimes := retries + 1);
            var newRequest := request.(dontFilter := true, meta := meta);
            return Outcome(NewRequest(newRequest), []);
          }
        }
        return Outcome(Keep, []);
      }
      if meta.cdxRequest {
        var snapshotRequests := BuildSnapshotRequests(response.body, meta);
        if snapshotRequests.None? || meta.originalRequest.None? {
          return Outcome(Keep, []);
        }
        var originalUrl := meta.originalRequest.value.url;
        if snapshotRequests.value == [] {
          return Outcome(NewResponse(Response(originalUrl, 404, Unparsable)), []);
        }
        return Outcome(NewResponse(Response(originalUrl, 200, Unparsable)), snapshotRequests.value);
      }
      if HasWaybackUrl(meta) && meta.originalRequest.Some? {
        return Outcome(NewResponse(response.(url := meta.originalRequest.value.url)), []);
      }
      return Outcome(Keep, []);
    }
  }
}
