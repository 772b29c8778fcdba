/** `MirrorSpider`: the start URLs and allowed domains built from the
    command-line domains, and the checks that decide whether a response is
    handed to the rules and where a snapshot is written. */
module Spider {
  import opened Wrappers
  import opened Text
  import opened Timestamps
  import opened Http

  const ArchiveDomains := ["archive.org", "web.archive.org", "wayback.archive.org"]
  const CdxPath := "cdx/search/cdx"

  // ---------------------------------------------------------------------
  // Start URLs and allowed domains

  /** The last piece of `domain.split('://')`. */
  function Unqualified(domain: string): string {
    var parts := Split(domain, "://");
    parts[|parts| - 1]
  }

  /** The first piece of `domain.split('://')` when there are several, else `http`. */
  function Scheme(domain: string): string {
    var parts := Split(domain, "://");
    if |parts| > 1 then parts[0] else "http"
  }

  function StartUrl(domain: string): string {
    Scheme(domain) + "://" + Unqualified(domain)
  }

  /** `unqualified_url.split('/')[0]`. */
  function BareDomain(domain: string): string {
    Split(Unqualified(domain), "/")[0]
  }

  function StartUrls(domains: seq<string>): (r: seq<string>)
    ensures |r| == |domains| && forall i :: 0 <= i < |domains| ==> r[i] == StartUrl(domains[i])
  {
    seq(|domains|, i requires 0 <= i < |domains| => StartUrl(domains[i]))
  }

  function BareDomains(domains: seq<string>): (r: seq<string>)
    ensures |r| == |domains| && forall i :: 0 <= i < |domains| ==> r[i] == BareDomain(domains[i])
  {
    seq(|domains|, i requires 0 <= i < |domains| => BareDomain(domains[i]))
  }

  /** Appending each item in turn unless the list already holds it. */
  function AppendNew(list: seq<string>, items: seq<string>): seq<string>
    decreases |items|
  {
    if items == [] then list
    else
      var prefix := AppendNew(list, items[..|items| - 1]);
      var item := items[|items| - 1];
      if item in prefix then prefix else prefix + [item]
  }

  /** `allowed_domains` after `__init__`. */
  function AllowedDomains(domains: seq<string>): seq<string> {
    AppendNew(AppendNew([], ArchiveDomains), BareDomains(domains))
  }

  predicate Distinct(s: seq<string>) {
    forall i, j :: 0 <= i < j < |s| ==> s[i] != s[j]
  }

  // ---------------------------------------------------------------------
  // Gates and the output location

  /** `parse_start_url` goes on to the rules only for a response that is not
      an index listing and whose request carries a capture time. */
  predicate ProceedsToRules(response: Response, meta: Meta) {
    !Contains(response.url, CdxPath) && meta.waybackTime.Some?
  }

  /** Where `save_page` writes: the directory path below the output
      directory, as its parts, and the file name. */
  datatype SaveTarget = SaveTarget(parts: seq<string>, filename: string)

  /** `time.timestamp()` printed as a float: an integral value gets `.0`. */
  function UnixName(dt: UtcDateTime): (r: string)
    ensures |r| > 2 && r[|r| - 2..] == ".0"
    ensures Epoch(dt) >= 0 ==> IsDigits(r[..|r| - 2]) && DigitsValue(r[..|r| - 2]) == Epoch(dt)
  {
    var digits := IntToString(Epoch(dt));
    assert Epoch(dt) >= 0 ==> DigitsValue(digits) == Epoch(dt) by {
      if Epoch(dt) >= 0 { NatToStringValue(Epoch(dt)); }
    }
    assert (digits + ".0")[..|digits|] == digits;
    digits + ".0"
  }

  class MirrorSpider {
    var directory: string
    var unix: bool
    var allowedDomains: seq<string>
    var startUrls: seq<string>

    /** `__init__`: the archive domains first, then the bare domain of each
        entry not yet allowed; one start URL per entry. */
    constructor(domains: seq<string>, directory: string, unix: bool)
      ensures this.directory == directory && this.unix == unix
      ensures allowedDomains == AllowedDomains(domains)
      ensures startUrls == StartUrls(domains)
    {
      var allowed: seq<string> := [];
      for i := 0 to |ArchiveDomains|
        invariant allowed == AppendNew([], ArchiveDomains[..i])
      {
        AppendNewStep([], ArchiveDomains, i);
        var domain := ArchiveDomains[i];
        if domain !in allowed {
          allowed := allowed + [domain];
        }
      }
      assert ArchiveDomains[..|ArchiveDomains|] == ArchiveDomains;
      ghost var archive := allowed;
      var starts: seq<string> := [];
      for i := 0 to |domains|
        invariant allowed == AppendNew(archive, BareDomains(domains[..i]))
        invariant starts == StartUrls(domains[..i])
      {
        var urlParts := Split(domains[i], "://");
        var unqualifiedUrl := urlParts[|urlParts| - 1];
        var urlScheme := if |urlParts| > 1 then urlParts[0] else "http";
        var fullUrl := urlScheme + "://" + unqualifiedUrl;
        var bareDomain := Split(unqualifiedUrl, "/")[0];
        InitStep(archive, domains, i);
        if bareDomain !in allowed {
          allowed := allowed + [bareDomain];
        }
        starts := starts + [fullUrl];
      }
      assert domains[..|domains|] == domains;
      this.directory := directory;
      this.unix := unix;
      allowedDomains := allowed;
      startUrls := starts;
    }

    /** `save_page` up to the write: nothing when the capture time is
        absent, the status is 404 or the URL has no `://`; otherwise the
        pieces between the first and a second `://`, split on `/`, and a
        file named after the capture time. */
    function SaveTargetFor(response: Response, meta: Meta): (t: Option<SaveTarget>)
      reads this
      ensures t.None? <==> meta.waybackTime.None? || response.status == 404 || !Contains(response.url, "://")
    {
      if meta.waybackTime.None? || response.status == 404 then None
      else
        var pieces := Split(response.url, "://");
        if |pieces| < 2 then
          assert !Contains(response.url, "://") by { SplitOnce(response.url, "://"); }
          None
        else
          assert Contains(response.url, "://") by { SplitOnce(response.url, "://"); }
          var time := meta.waybackTime.value;
          var stem := if unix then UnixName(time) else FormatTimestamp(time);
          Some(SaveTarget(Split(pieces[1], "/"), stem + ".snapshot"))
    }
  }

  /** A string splits into several pieces exactly when it holds the separator. */
  lemma SplitOnce(s: string, sep: string)
    requires |sep| > 0
    ensures |Split(s, sep)| > 1 <==> Contains(s, sep)
  {
  }

  lemma AppendNewStep(list: seq<string>, items: seq<string>, i: nat)
    requires i < |items|
    ensures AppendNew(list, items[..i + 1]) ==
              var prefix := AppendNew(list, items[..i]);
              if items[i] in prefix then prefix else prefix + [items[i]]
  {
    assert items[..i + 1][..i] == items[..i];
  }

  /** One iteration of the loop over the domains in `__init__`. */
  lemma InitStep(archive: seq<string>, domains: seq<string>, i: nat)
    requires i < |domains|
    ensures var prefix := AppendNew(archive, BareDomains(domains[..i]));
      AppendNew(archive, BareDomains(domains[..i + 1])) ==
        if BareDomain(domains[i]) in prefix then prefix else prefix + [BareDomain(domains[i])]
    ensures StartUrls(domains[..i + 1]) == StartUrls(domains[..i]) + [StartUrl(domains[i])]
  {
    var b := BareDomains(domains[..i + 1]);
    BareDomainsPrefix(domains, i);
    AppendNewStep(archive, b, i);
    StartUrlsPrefix(domains, i);
  }

  lemma BareDomainsPrefix(domains: seq<string>, i: nat)
    requires i < |domains|
    ensures BareDomains(domains[..i + 1])[..i] == BareDomains(domains[..i])
    ensures BareDomains(domains[..i + 1])[i] == BareDomain(domains[i])
  {
    var b, c := BareDomains(domains[..i + 1]), BareDomains(domains[..i]);
    assert |b[..i]| == |c|;
    forall j | 0 <= j < i ensures b[..i][j] == c[j] {
      assert domains[..i + 1][j] == domains[..i][j];
    }
  }

  lemma StartUrlsPrefix(domains: seq<string>, i: nat)
    requires i < |domains|
    ensures StartUrls(domains[..i + 1]) == StartUrls(domains[..i]) + [StartUrl(domains[i])]
  {
    var b, c := StartUrls(domains[..i + 1]), StartUrls(domains[..i]);
    assert |b| == |c + [StartUrl(domains[i])]|;
    forall j | 0 <= j <= i ensures b[j] == (c + [StartUrl(domains[i])])[j] {
      assert domains[..i + 1][j] == domains[j];
    }
  }

  // ---------------------------------------------------------------------
  // Properties

  lemma {:induction false} AppendNewKeepsPrefix(list: seq<string>, items: seq<string>)
    ensures var r := AppendNew(list, items); |r| >= |list| && r[..|list|] == list
    decreases |items|
  {
    if items != [] {
      AppendNewKeepsPrefix(list, items[..|items| - 1]);
    }
  }

  /** Exactly the list's entries and the items end up in the result. */
  lemma {:induction false} AppendNewContents(list: seq<string>, items: seq<string>)
    ensures forall x :: x in AppendNew(list, items) <==> x in list || x in items
    decreases |items|
  {
    if items != [] {
      var n := |items| - 1;
      AppendNewContents(list, items[..n]);
      assert items == items[..n] + [items[n]];
    }
  }

  /** The guarded appends never duplicate an entry. */
  lemma {:induction false} AppendNewDistinct(list: seq<string>, items: seq<string>)
    requires Distinct(list)
    ensures Distinct(AppendNew(list, items))
    decreases |items|
  {
    if items != [] {
      AppendNewDistinct(list, items[..|items| - 1]);
    }
  }

  /** The three archive domains are distinct, so all of them are appended. */
  lemma ArchiveFirst()
    ensures AppendNew([], ArchiveDomains) == ArchiveDomains
  {
    var d := ArchiveDomains;
    assert |d[0]| == 11 && |d[1]| == 15 && |d[2]| == 19;
    AppendNewFresh([], d);
  }

  /** Items that are distinct and new to the list are all appended. */
  lemma {:induction false} AppendNewFresh(list: seq<string>, items: seq<string>)
    requires Distinct(items) && forall i :: 0 <= i < |items| ==> items[i] !in list
    ensures AppendNew(list, items) == list + items
    decreases |items|
  {
    if items != [] {
      var n := |items| - 1;
      AppendNewFresh(list, items[..n]);
      assert items[n] !in items[..n];
      assert list + items[..n] + [items[n]] == list + items;
    }
  }

  /** `allowed_domains` starts with the three archive domains in order,
      holds no duplicate, holds the bare domain of every entry, and holds
      nothing else. */
  lemma AllowedDomainsShape(domains: seq<string>)
    ensures var a := AllowedDomains(domains);
      && |a| >= 3 && a[..3] == ArchiveDomains
      && Distinct(a)
      && (forall i :: 0 <= i < |domains| ==> BareDomain(domains[i]) in a)
      && (forall x :: x in a ==> x in ArchiveDomains || exists i :: 0 <= i < |domains| && x == BareDomain(domains[i]))
  {
    var archive := AppendNew([], ArchiveDomains);
    ArchiveFirst();
    var bares := BareDomains(domains);
    AppendNewKeepsPrefix(archive, bares);
    AppendNewDistinct(archive, bares);
    AppendNewContents(archive, bares);
    forall i | 0 <= i < |domains| ensures BareDomain(domains[i]) in AllowedDomains(domains) {
      assert bares[i] == BareDomain(domains[i]);
    }
    forall x | x in AllowedDomains(domains) && x !in ArchiveDomains
      ensures exists i :: 0 <= i < |domains| && x == BareDomain(domains[i])
    {
      var i :| 0 <= i < |bares| && bares[i] == x;
    }
  }

  /** An entry with one `://` is its own start URL; an entry without one is
      fetched over http. */
  lemma StartUrlShape(domain: string)
    ensures !Contains(domain, "://") ==> StartUrl(domain) == "http://" + domain
    ensures |Split(domain, "://")| == 2 ==> StartUrl(domain) == domain
  {
    SplitJoin(domain, "://");
    if !Contains(domain, "://") {
      SplitAbsent(domain, "://");
    }
  }

  /** The bare domain is the start of the unqualified URL up to its first
      `/`, and holds no `/`. */
  lemma BareDomainShape(domain: string)
    ensures var u, b := Unqualified(domain), BareDomain(domain);
      && |b| <= |u| && u[..|b|] == b && !Contains(b, "/")
      && (|b| < |u| ==> u[|b|] == '/')
  {
    var u := Unqualified(domain);
    SplitJoin(u, "/");
    SplitFirst(u, "/");
    match Find(u, "/")
    case None =>
    case Some(i) => assert u[i..i + 1] == "/";
  }

  /** The directory parts are the pieces of the URL between its first and
      any second `://`, split on `/`: joined again they give that text, and
      none holds a `/`. */
  lemma DirectoryParts(spider: MirrorSpider, response: Response, meta: Meta)
    requires spider.SaveTargetFor(response, meta).Some?
    ensures var t := spider.SaveTargetFor(response, meta).value;
      && Join(t.parts, "/") == Split(response.url, "://")[1]
      && forall k :: 0 <= k < |t.parts| ==> !Contains(t.parts[k], "/")
  {
    SplitJoin(Split(response.url, "://")[1], "/");
  }

  /** Outside unix mode a snapshot parsed from an archive timestamp is saved
      as that timestamp with `.snapshot` appended. */
  lemma FileNamedAfterTimestamp(spider: MirrorSpider, response: Response, meta: Meta, ts: string)
    requires !spider.unix && spider.SaveTargetFor(response, meta).Some?
    requires ParseTimestamp(ts).Some? && meta.waybackTime == Some(ParseTimestamp(ts).value) && ts[0] != '0'
    ensures spider.SaveTargetFor(response, meta).value.filename == ts + ".snapshot"
  {
    ParseThenFormat(ts);
  }
}
