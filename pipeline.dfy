/** How the middleware's tags meet the spider's checks: index answers are
    never handed to the rules or saved, and a snapshot answer is saved
    under the original URL's path and the archive timestamp it was fetched
    at. */
module Pipeline {
  import opened Wrappers
  import opened Text
  import opened Timestamps
  import opened Selection
  import opened Http
  import opened Mediation
  import opened Spider

  /** The 200 and 404 answers built for an index query carry the index
      query's tags, which hold no capture time: the spider neither parses
      nor saves them. */
  lemma IndexAnswersIgnored(spider: MirrorSpider, x: Request, encode: string -> string, answer: Response)
    requires ProcessRequest(x, encode).Some?
    ensures var meta := ProcessRequest(x, encode).value.meta;
      !ProceedsToRules(answer, meta) && spider.SaveTargetFor(answer, meta).None?
  {
  }

  /** Whatever answer comes back at the URL of an index query, even the
      raw listing handed on when it cannot be read, is not passed to the
      rules: the spider recognises the index path in it. */
  lemma IndexListingsStopAtGate(x: Request, encode: string -> string, response: Response, meta: Meta)
    requires ProcessRequest(x, encode).Some?
    ensures !ProceedsToRules(response.(url := ProcessRequest(x, encode).value.url), meta)
  {
    var u := ProcessRequest(x, encode).value.url;
    var head := CdxEndpoint + "?url=";
    assert u[..|head|] == head;
    assert u[24..38] == head[24..38] == CdxPath;
    assert OccursAt(u, CdxPath, 24);
  }

  /** Every selected snapshot of a listing has a capture time, the one its
      `timestamp` column parses to. */
  lemma SelectedTimesParsed(keys: seq<string>, rows: seq<seq<string>>, lo: int, hi: int)
    requires ToSnapshots(keys, rows).Some?
    ensures forall s :: s in Selected(ToSnapshots(keys, rows).value, lo, hi) ==>
              s.datetime.Some? && s.datetime == Parsed(s.timestamp)
  {
    var snaps := ToSnapshots(keys, rows).value;
    SelectedIsSubsequence(snaps, lo, hi);
    var idx := SelectedIndices(snaps, lo, hi);
    forall s | s in Selected(snaps, lo, hi) ensures s.datetime.Some? && s.datetime == Parsed(s.timestamp) {
      var j :| 0 <= j < |idx| && Selected(snaps, lo, hi)[j] == s;
      ToSnapshotTime(keys, rows[idx[j]]);
    }
  }

  /** A selected row of an index listing, as the snapshot the request for
      it was built from. */
  lemma EnqueuedFromRow(x: Request, encode: string -> string, index: Response, lo: int, hi: int, r: Request)
    requires ProcessRequest(x, encode).Some?
    requires r in HandleResponse(ProcessRequest(x, encode).value, index, lo, hi).enqueue
    ensures && index.body.Listing? && |index.body.data| >= 2
            && ToSnapshots(index.body.data[0], index.body.data[1..]).Some?
    ensures var sel := Selected(ToSnapshots(index.body.data[0], index.body.data[1..]).value, lo, hi);
      exists s: Snapshot :: && s in sel && s.original.Some? && s.datetime.Some?
                            && s.datetime == Parsed(s.timestamp) && r == SnapshotRequest(x, s)
  {
    var cdx := ProcessRequest(x, encode).value;
    EnqueuedFromListing(cdx, index, lo, hi);
    var keys, rows := index.body.data[0], index.body.data[1..];
    var sel := Selected(ToSnapshots(keys, rows).value, lo, hi);
    var reqs := RequestsFor(sel, cdx.meta);
    RequestsForTagged(sel, cdx.meta);
    SelectedTimesParsed(keys, rows, lo, hi);
    var j :| 0 <= j < |reqs| && reqs[j] == r;
    var k :| 0 <= k < |sel| && sel[k].original.Some? && reqs[j] == SnapshotRequest(x, sel[k]);
    var s := sel[k];
    assert s in sel;
    assert s.datetime.Some? && s.datetime == Parsed(s.timestamp);
    assert r == SnapshotRequest(x, s);
  }

  /** A successful answer to a snapshot request comes back at the URL of
      the request it stands for, goes on to the rules unless that URL is an
      index query, and is saved when that URL has a scheme. */
  lemma SnapshotAnswerSaved(spider: MirrorSpider, x: Request, encode: string -> string, index: Response,
                            lo: int, hi: int, r: Request, answer: Response)
    requires ProcessRequest(x, encode).Some?
    requires r in HandleResponse(ProcessRequest(x, encode).value, index, lo, hi).enqueue
    requires answer.status < 400
    ensures var resp := answer.(url := x.url);
      && HandleResponse(r, answer, lo, hi).reply == NewResponse(resp)
      && (ProceedsToRules(resp, r.meta) <==> !Contains(x.url, CdxPath))
      && (spider.SaveTargetFor(resp, r.meta).Some? <==> Contains(x.url, "://"))
  {
    IdentityRestored(x, encode, index, lo, hi, r, answer);
    EnqueuedFromRow(x, encode, index, lo, hi, r);
  }

  /** Outside unix mode the answer to the request built for a snapshot is
      saved under the snapshot's archive timestamp, the one in the URL it
      was fetched from (when that timestamp does not start with 0). */
  lemma SnapshotFileName(spider: MirrorSpider, x: Request, s: Snapshot, answer: Response)
    requires s.original.Some? && s.datetime.Some? && s.datetime == Parsed(s.timestamp)
    requires !spider.unix && answer.status != 404 && Contains(answer.url, "://")
    ensures var r := SnapshotRequest(x, s);
      && StartsWith(r.url, SnapshotPrefix + s.timestamp) && |s.timestamp| == 14
      && (s.timestamp[0] != '0' ==> spider.SaveTargetFor(answer, r.meta).value.filename == s.timestamp + ".snapshot")
  {
    var ts := s.timestamp;
    var r := SnapshotRequest(x, s);
    assert ParseTimestamp(ts).Some?;
    assert r.url == SnapshotPrefix + ts + ("id_/" + s.original.value);
    if ts[0] != '0' {
      ParseThenFormat(ts);
      assert r.meta.waybackTime == Some(ParseTimestamp(ts).value);
    }
  }
}
