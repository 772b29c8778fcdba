/** The snapshot selector (`filter_snapshots`): one pass over the index rows
    that keeps a pending anchor before the window, collapses runs of equal
    digests and stops at the first row past the window.

    The specification is a fold, `Scan`, over row indices; working with
    indices lets the lemmas speak of "the same row" rather than "an equal
    row". */
module Selection {
  import opened Wrappers
  import opened Text
  import opened Timestamps

  /** One row of the index after `build_dict`: its parsed `datetime` (None
      when strptime failed) and the raw `timestamp`, `original`,
      `statuscode` and `digest` columns. */
  datatype Snapshot = Snapshot(datetime: Option<UtcDateTime>, timestamp: string,
                               original: Option<string>, statuscode: string, digest: string)

  /** Rows the filter looks at: a parsed time and a numeric status below 300. */
  predicate Eligible(s: Snapshot) {
    s.datetime.Some? && IsDigits(s.statuscode) && DigitsValue(s.statuscode) < 300
  }

  function Instant(s: Snapshot): int
    requires s.datetime.Some?
  {
    Epoch(s.datetime.value)
  }

  /** What the loop reads of a snapshot: whether it passes the datetime and
      status checks, its POSIX time, and its digest. */
  datatype Row = Row(live: bool, instant: int, digest: string)

  function View(s: Snapshot): (r: Row)
    ensures r.live <==> Eligible(s)
    ensures r.live ==> r.instant == Instant(s)
    ensures r.digest == s.digest
  {
    if Eligible(s) then Row(true, Instant(s), s.digest) else Row(false, 0, s.digest)
  }

  function Views(rows: seq<Snapshot>): (r: seq<Row>)
    ensures |r| == |rows| && forall k :: 0 <= k < |rows| ==> r[k] == View(rows[k])
  {
    seq(|rows|, k requires 0 <= k < |rows| => View(rows[k]))
  }

  /** The loop state: emitted row indices, the pending anchor, the digest of
      the last emitted row, and whether the loop has broken out. */
  datatype ScanState = ScanState(out: seq<nat>, anchor: Option<nat>, lastDigest: Option<string>, stopped: bool)

  const Start := ScanState([], None, None, false)

  /** The part of one iteration that runs while nothing has been emitted:
      at the first row after the window start the anchor (if any) is
      emitted; a row at or before the start becomes the new anchor. */
  function Cross(rows: seq<Row>, k: nat, st: ScanState, lo: int): ScanState
    requires k < |rows| && rows[k].live
    requires st.anchor.Some? ==> st.anchor.value < |rows|
  {
    if st.out != [] then st
    else if rows[k].instant > lo then
      match st.anchor
      case None => st
      case Some(a) => st.(out := [a], lastDigest := Some(rows[a].digest))
    else st.(anchor := Some(k))
  }

  /** The rest of the iteration: skip rows before the start, stop past the
      end, skip a repeated digest, otherwise emit. */
  function Admit(rows: seq<Row>, k: nat, st: ScanState, lo: int, hi: int): ScanState
    requires k < |rows| && rows[k].live
  {
    var t := rows[k].instant;
    if t < lo then st
    else if t > hi then st.(stopped := true)
    else if st.lastDigest == Some(rows[k].digest) then st
    else st.(out := st.out + [k], lastDigest := Some(rows[k].digest))
  }

  function Step(rows: seq<Row>, k: nat, st: ScanState, lo: int, hi: int): ScanState
    requires k < |rows|
    requires st.anchor.Some? ==> st.anchor.value < |rows|
  {
    if st.stopped || !rows[k].live then st
    else Admit(rows, k, Cross(rows, k, st, lo), lo, hi)
  }

  /** The state after the first `n` rows. */
  function Scan(rows: seq<Row>, n: nat, lo: int, hi: int): (st: ScanState)
    requires n <= |rows|
    ensures st.anchor.Some? ==> st.anchor.value < n
    ensures forall j :: 0 <= j < |st.out| ==> st.out[j] < n
  {
    if n == 0 then Start else Step(rows, n - 1, Scan(rows, n - 1, lo, hi), lo, hi)
  }

  function Gather(rows: seq<Snapshot>, idx: seq<nat>): (r: seq<Snapshot>)
    requires forall j :: 0 <= j < |idx| ==> idx[j] < |rows|
    ensures |r| == |idx| && forall j :: 0 <= j < |idx| ==> r[j] == rows[idx[j]]
  {
    seq(|idx|, j requires 0 <= j < |idx| => rows[idx[j]])
  }

  /** Indices of the rows `filter_snapshots` returns, in order. */
  function SelectedIndices(rows: seq<Snapshot>, lo: int, hi: int): seq<nat>
  {
    Scan(Views(rows), |rows|, lo, hi).out
  }

  /** What `filter_snapshots` returns for the window [lo, hi]. */
  function Selected(rows: seq<Snapshot>, lo: int, hi: int): seq<Snapshot>
  {
    Gather(rows, SelectedIndices(rows, lo, hi))
  }

  // ---------------------------------------------------------------------
  // Row classes used by the properties

  /** A row that makes the loop break: at or after the start and past the end. */
  predicate StopRow(rows: seq<Row>, k: nat, lo: int, hi: int)
    requires k < |rows|
  {
    rows[k].live && rows[k].instant >= lo && rows[k].instant > hi
  }

  predicate InWindow(s: Row, lo: int, hi: int)
  {
    lo <= s.instant <= hi
  }

  // ---------------------------------------------------------------------
  // Invariants of the scan

  predicate Below(st: ScanState, k: nat) {
    (forall j :: 0 <= j < |st.out| ==> st.out[j] < k) && (st.anchor.Some? ==> st.anchor.value < k)
  }

  /** Order, validity and digests of what has been emitted. */
  predicate Shape(rows: seq<Row>, st: ScanState)
    requires Below(st, |rows|)
  {
    && (forall j :: 0 <= j < |st.out| ==> rows[st.out[j]].live)
    && (forall j1, j2 :: 0 <= j1 < j2 < |st.out| ==> st.out[j1] < st.out[j2])
    && (forall j :: 0 < j < |st.out| ==> rows[st.out[j - 1]].digest != rows[st.out[j]].digest)
    && st.lastDigest == (if st.out == [] then None else Some(rows[st.out[|st.out| - 1]].digest))
    && (st.anchor.Some? ==> rows[st.anchor.value].live)
  }

  lemma CrossShape(rows: seq<Row>, k: nat, st: ScanState, lo: int)
    requires k < |rows| && rows[k].live && Below(st, k) && Shape(rows, st)
    ensures Below(Cross(rows, k, st, lo), k + 1) && Shape(rows, Cross(rows, k, st, lo))
  {
  }

  lemma AdmitShape(rows: seq<Row>, k: nat, st: ScanState, lo: int, hi: int)
    requires k < |rows| && rows[k].live && Below(st, k + 1) && Shape(rows, st)
    requires forall j :: 0 <= j < |st.out| ==> st.out[j] < k
    ensures Below(Admit(rows, k, st, lo, hi), k + 1) && Shape(rows, Admit(rows, k, st, lo, hi))
  {
    var a := Admit(rows, k, st, lo, hi);
    if a.out != st.out {
      assert a.out == st.out + [k];
    }
  }

  lemma StepShape(rows: seq<Row>, k: nat, st: ScanState, lo: int, hi: int)
    requires k < |rows| && Below(st, k) && Shape(rows, st)
    ensures Below(Step(rows, k, st, lo, hi), k + 1) && Shape(rows, Step(rows, k, st, lo, hi))
  {
    if !st.stopped && rows[k].live {
      CrossShape(rows, k, st, lo);
      AdmitShape(rows, k, Cross(rows, k, st, lo), lo, hi);
    }
  }

  lemma {:induction false} ScanShape(rows: seq<Row>, n: nat, lo: int, hi: int)
    requires n <= |rows|
    ensures Below(Scan(rows, n, lo, hi), n) && Shape(rows, Scan(rows, n, lo, hi))
  {
    if n > 0 {
      ScanShape(rows, n - 1, lo, hi);
      StepShape(rows, n - 1, Scan(rows, n - 1, lo, hi), lo, hi);
    }
  }

  /** The loop has broken out exactly when a stop row has been seen, and
      nothing at or after a stop row is ever emitted. */
  ghost predicate StopInv(rows: seq<Row>, n: nat, lo: int, hi: int, st: ScanState)
    requires n <= |rows|
  {
    && (st.stopped <==> exists k :: 0 <= k < n && StopRow(rows, k, lo, hi))
    && (forall j, k :: 0 <= j < |st.out| && 0 <= k < n && StopRow(rows, k, lo, hi) ==> st.out[j] < k)
  }

  lemma StepStop(rows: seq<Row>, k: nat, st: ScanState, lo: int, hi: int)
    requires k < |rows| && Below(st, k) && StopInv(rows, k, lo, hi, st)
    ensures StopInv(rows, k + 1, lo, hi, Step(rows, k, st, lo, hi))
  {
    var r := Step(rows, k, st, lo, hi);
    if !st.stopped && rows[k].live {
      var c := Cross(rows, k, st, lo);
      assert Below(c, k + 1) && !c.stopped;
      assert forall j :: 0 <= j < |c.out| ==> c.out[j] < k;
      if StopRow(rows, k, lo, hi) {
        assert r == c.(stopped := true);
      } else {
        assert !r.stopped;
      }
    }
  }

  lemma {:induction false} ScanStop(rows: seq<Row>, n: nat, lo: int, hi: int)
    requires n <= |rows|
    ensures StopInv(rows, n, lo, hi, Scan(rows, n, lo, hi))
  {
    if n > 0 {
      ScanStop(rows, n - 1, lo, hi);
      ScanShape(rows, n - 1, lo, hi);
      StepStop(rows, n - 1, Scan(rows, n - 1, lo, hi), lo, hi);
    }
  }

  /** `a` is the pending anchor the crossing row `c` emits: the last
      eligible row before the first eligible row after the window start. */
  predicate IsAnchorFor(rows: seq<Row>, a: nat, c: nat, lo: int) {
    && a < c < |rows|
    && rows[a].live && rows[c].live && rows[c].instant > lo
    && (forall k :: 0 <= k < c && rows[k].live ==> rows[k].instant < lo)
    && (forall k :: a < k < c ==> !rows[k].live)
  }

  /** Everything but the first emitted row is inside the window; the first
      is inside it or is the anchor. While nothing has been emitted, every
      eligible row so far lies before the window and the anchor is the last
      of them. */
  ghost predicate WindowInv(rows: seq<Row>, n: nat, lo: int, hi: int, st: ScanState)
    requires n <= |rows| && Below(st, |rows|) && Shape(rows, st)
  {
    && (forall j :: 0 < j < |st.out| ==> InWindow(rows[st.out[j]], lo, hi))
    && (st.anchor.Some? ==> rows[st.anchor.value].instant <= lo)
    && (st.out == [] && !st.stopped ==>
          && (forall k :: 0 <= k < n && rows[k].live ==> rows[k].instant < lo)
          && (st.anchor.None? ==> forall k :: 0 <= k < n ==> !rows[k].live)
          && (st.anchor.Some? ==> forall k :: st.anchor.value < k < n ==> !rows[k].live))
    && (st.out != [] && !InWindow(rows[st.out[0]], lo, hi) ==>
          exists c :: 0 <= c < n && IsAnchorFor(rows, st.out[0], c, lo))
  }

  lemma StepWindowIdle(rows: seq<Row>, k: nat, st: ScanState, lo: int, hi: int)
    requires k < |rows| && Below(st, k) && Shape(rows, st) && WindowInv(rows, k, lo, hi, st)
    requires st.stopped || !rows[k].live
    ensures WindowInv(rows, k + 1, lo, hi, st)
  {
  }

  /** Something was emitted already: at most `k` itself is appended. */
  lemma StepWindowEmitting(rows: seq<Row>, k: nat, st: ScanState, lo: int, hi: int)
    requires k < |rows| && Below(st, k) && Shape(rows, st) && WindowInv(rows, k, lo, hi, st)
    requires !st.stopped && rows[k].live && st.out != []
    ensures Below(Step(rows, k, st, lo, hi), k + 1) && Shape(rows, Step(rows, k, st, lo, hi))
    ensures WindowInv(rows, k + 1, lo, hi, Step(rows, k, st, lo, hi))
  {
    StepShape(rows, k, st, lo, hi);
    var r := Step(rows, k, st, lo, hi);
    assert r == Admit(rows, k, st, lo, hi);
    if r.out != st.out {
      assert r.out == st.out + [k];
      assert r.out[0] == st.out[0];
    }
  }

  /** The crossing row with a pending anchor: the anchor is emitted. */
  lemma StepWindowAnchor(rows: seq<Row>, k: nat, st: ScanState, lo: int, hi: int)
    requires k < |rows| && Below(st, k) && Shape(rows, st) && WindowInv(rows, k, lo, hi, st)
    requires !st.stopped && rows[k].live && st.out == [] && rows[k].instant > lo && st.anchor.Some?
    ensures Below(Step(rows, k, st, lo, hi), k + 1) && Shape(rows, Step(rows, k, st, lo, hi))
    ensures WindowInv(rows, k + 1, lo, hi, Step(rows, k, st, lo, hi))
  {
    StepShape(rows, k, st, lo, hi);
    var a := st.anchor.value;
    assert IsAnchorFor(rows, a, k, lo);
    var c := Cross(rows, k, st, lo);
    assert c.out == [a];
    var r := Step(rows, k, st, lo, hi);
    assert r == Admit(rows, k, c, lo, hi);
    assert r.out[0] == a;
    if r.out != c.out {
      assert r.out == [a, k];
    }
  }

  /** The crossing row without an anchor: only the row itself may be emitted. */
  lemma StepWindowNoAnchor(rows: seq<Row>, k: nat, st: ScanState, lo: int, hi: int)
    requires k < |rows| && Below(st, k) && Shape(rows, st) && WindowInv(rows, k, lo, hi, st)
    requires !st.stopped && rows[k].live && st.out == [] && rows[k].instant > lo && st.anchor.None?
    ensures Below(Step(rows, k, st, lo, hi), k + 1) && Shape(rows, Step(rows, k, st, lo, hi))
    ensures WindowInv(rows, k + 1, lo, hi, Step(rows, k, st, lo, hi))
  {
    StepShape(rows, k, st, lo, hi);
    var r := Step(rows, k, st, lo, hi);
    assert r == Admit(rows, k, st, lo, hi);
  }

  /** A row at or before the start becomes the anchor. */
  lemma StepWindowRecord(rows: seq<Row>, k: nat, st: ScanState, lo: int, hi: int)
    requires k < |rows| && Below(st, k) && Shape(rows, st) && WindowInv(rows, k, lo, hi, st)
    requires !st.stopped && rows[k].live && st.out == [] && rows[k].instant <= lo
    ensures Below(Step(rows, k, st, lo, hi), k + 1) && Shape(rows, Step(rows, k, st, lo, hi))
    ensures WindowInv(rows, k + 1, lo, hi, Step(rows, k, st, lo, hi))
  {
    StepShape(rows, k, st, lo, hi);
    var c := st.(anchor := Some(k));
    assert Cross(rows, k, st, lo) == c;
    var r := Step(rows, k, st, lo, hi);
    assert r == Admit(rows, k, c, lo, hi);
  }

  lemma StepWindow(rows: seq<Row>, k: nat, st: ScanState, lo: int, hi: int)
    requires k < |rows| && Below(st, k) && Shape(rows, st) && WindowInv(rows, k, lo, hi, st)
    ensures Below(Step(rows, k, st, lo, hi), k + 1) && Shape(rows, Step(rows, k, st, lo, hi))
    ensures WindowInv(rows, k + 1, lo, hi, Step(rows, k, st, lo, hi))
  {
    StepShape(rows, k, st, lo, hi);
    if st.stopped || !rows[k].live {
      StepWindowIdle(rows, k, st, lo, hi);
    } else if st.out != [] {
      StepWindowEmitting(rows, k, st, lo, hi);
    } else if rows[k].instant <= lo {
      StepWindowRecord(rows, k, st, lo, hi);
    } else if st.anchor.Some? {
      StepWindowAnchor(rows, k, st, lo, hi);
    } else {
      StepWindowNoAnchor(rows, k, st, lo, hi);
    }
  }

  lemma {:induction false} ScanWindow(rows: seq<Row>, n: nat, lo: int, hi: int)
    requires n <= |rows|
    ensures Below(Scan(rows, n, lo, hi), n) && Shape(rows, Scan(rows, n, lo, hi))
    ensures WindowInv(rows, n, lo, hi, Scan(rows, n, lo, hi))
  {
    if n > 0 {
      ScanWindow(rows, n - 1, lo, hi);
      StepWindow(rows, n - 1, Scan(rows, n - 1, lo, hi), lo, hi);
    }
  }

  /** `c` is the first eligible row after the window start, every eligible
      row before it lies before the window, and there is at least one. */
  ghost predicate AnchoredCrossing(rows: seq<Row>, c: nat, lo: int) {
    && c < |rows| && rows[c].live && rows[c].instant > lo
    && (forall k :: 0 <= k < c && rows[k].live ==> rows[k].instant < lo)
    && (exists k :: 0 <= k < c && rows[k].live)
  }

  /** Once such a crossing has been read, the anchor it releases is the
      first emitted row. */
  ghost predicate AnchorInv(rows: seq<Row>, n: nat, lo: int, st: ScanState)
    requires Below(st, |rows|)
  {
    forall c :: 0 <= c < n && AnchoredCrossing(rows, c, lo) ==>
      st.out != [] && st.out[0] < c && rows[st.out[0]].live
      && forall k :: st.out[0] < k < c ==> !rows[k].live
  }

  /** Nothing is emitted before the window start except through a crossing. */
  lemma NothingBeforeCrossing(rows: seq<Row>, k: nat, st: ScanState, lo: int, hi: int)
    requires k < |rows| && Below(st, k) && Shape(rows, st) && WindowInv(rows, k, lo, hi, st)
    requires StopInv(rows, k, lo, hi, st)
    requires forall i :: 0 <= i < k && rows[i].live ==> rows[i].instant < lo
    ensures st.out == [] && !st.stopped
  {
  }

  lemma StepAnchor(rows: seq<Row>, k: nat, st: ScanState, lo: int, hi: int)
    requires k < |rows| && Below(st, k) && Shape(rows, st) && WindowInv(rows, k, lo, hi, st)
    requires StopInv(rows, k, lo, hi, st) && AnchorInv(rows, k, lo, st)
    ensures Below(Step(rows, k, st, lo, hi), k + 1)
    ensures AnchorInv(rows, k + 1, lo, Step(rows, k, st, lo, hi))
  {
    StepShape(rows, k, st, lo, hi);
    var r := Step(rows, k, st, lo, hi);
    if AnchoredCrossing(rows, k, lo) {
      NothingBeforeCrossing(rows, k, st, lo, hi);
      var i :| 0 <= i < k && rows[i].live;
      assert st.anchor.Some?;
      var a := st.anchor.value;
      var c := Cross(rows, k, st, lo);
      assert c.out == [a];
      assert r == Admit(rows, k, c, lo, hi);
      assert r.out[0] == a;
    }
    if st.out != [] && r.out != st.out {
      assert r.out == st.out + [k];
    }
  }

  lemma {:induction false} ScanAnchor(rows: seq<Row>, n: nat, lo: int, hi: int)
    requires n <= |rows|
    ensures Below(Scan(rows, n, lo, hi), n) && AnchorInv(rows, n, lo, Scan(rows, n, lo, hi))
  {
    if n > 0 {
      var prev := Scan(rows, n - 1, lo, hi);
      ScanAnchor(rows, n - 1, lo, hi);
      ScanWindow(rows, n - 1, lo, hi);
      ScanStop(rows, n - 1, lo, hi);
      StepAnchor(rows, n - 1, prev, lo, hi);
      assert Scan(rows, n, lo, hi) == Step(rows, n - 1, prev, lo, hi);
    }
  }

  /** Row `k` was left out because the last row emitted before it has the
      same digest. */
  ghost predicate Covered(rows: seq<Row>, out: seq<nat>, k: nat)
    requires k < |rows|
    requires forall j :: 0 <= j < |out| ==> out[j] < |rows|
  {
    exists j :: LastBefore(out, j, k) && rows[out[j]].digest == rows[k].digest
  }

  /** `out[j]` is the last entry of `out` below `k`. */
  predicate LastBefore(out: seq<nat>, j: int, k: nat) {
    0 <= j < |out| && out[j] < k && (j + 1 < |out| ==> k < out[j + 1])
  }

  ghost predicate NoStopBefore(rows: seq<Row>, k: nat, lo: int, hi: int)
    requires k <= |rows|
  {
    forall i :: 0 <= i < k ==> !StopRow(rows, i, lo, hi)
  }

  /** Every eligible row inside the window read before the loop broke out
      was emitted, or repeats the digest of the row emitted just before it. */
  ghost predicate CollapseInv(rows: seq<Row>, n: nat, lo: int, hi: int, out: seq<nat>)
    requires n <= |rows| && forall j :: 0 <= j < |out| ==> out[j] < |rows|
  {
    forall k :: 0 <= k < n && rows[k].live && InWindow(rows[k], lo, hi) && NoStopBefore(rows, k, lo, hi) ==>
      k in out || Covered(rows, out, k)
  }

  /** Rows before `k` keep their place or their witness: the output only grows at the end. */
  lemma CollapseExtends(rows: seq<Row>, out: seq<nat>, out': seq<nat>, i: nat, k: nat)
    requires i < k < |rows|
    requires forall j :: 0 <= j < |out'| ==> out'[j] < |rows|
    requires forall j :: 0 <= j < |out| ==> out[j] < k
    requires out' == out || out' == out + [k]
    requires i in out || Covered(rows, out, i)
    ensures i in out' || Covered(rows, out', i)
  {
    if i in out {
      var j :| 0 <= j < |out| && out[j] == i;
      assert out'[j] == i;
    } else {
      var j :| LastBefore(out, j, i) && rows[out[j]].digest == rows[i].digest;
      assert out'[j] == out[j];
      assert LastBefore(out', j, i);
    }
  }

  /** Row `k` itself is emitted, or repeats the last emitted digest. */
  lemma CollapseNew(rows: seq<Row>, k: nat, c: ScanState, lo: int, hi: int)
    requires k < |rows| && rows[k].live && InWindow(rows[k], lo, hi)
    requires Below(c, k + 1) && Shape(rows, c) && forall j :: 0 <= j < |c.out| ==> c.out[j] < k
    ensures Below(Admit(rows, k, c, lo, hi), k + 1)
    ensures k in Admit(rows, k, c, lo, hi).out || Covered(rows, Admit(rows, k, c, lo, hi).out, k)
  {
    var r := Admit(rows, k, c, lo, hi);
    if c.lastDigest == Some(rows[k].digest) {
      var j := |c.out| - 1;
      assert r.out == c.out;
      assert LastBefore(r.out, j, k) && rows[r.out[j]].digest == rows[k].digest;
    } else {
      assert r.out == c.out + [k];
      assert r.out[|c.out|] == k;
    }
  }

  /** Appending `k` (or nothing) keeps the property for the rows before `k`. */
  lemma CollapseKeep(rows: seq<Row>, k: nat, lo: int, hi: int, out: seq<nat>, out': seq<nat>)
    requires k < |rows|
    requires forall j :: 0 <= j < |out| ==> out[j] < k
    requires out' == out || out' == out + [k]
    requires CollapseInv(rows, k, lo, hi, out)
    ensures forall j :: 0 <= j < |out'| ==> out'[j] < |rows|
    ensures forall i :: 0 <= i < k && rows[i].live && InWindow(rows[i], lo, hi) && NoStopBefore(rows, i, lo, hi) ==>
              i in out' || Covered(rows, out', i)
  {
    forall i | 0 <= i < k && rows[i].live && InWindow(rows[i], lo, hi) && NoStopBefore(rows, i, lo, hi)
      ensures i in out' || Covered(rows, out', i)
    {
      CollapseExtends(rows, out, out', i, k);
    }
  }

  lemma StepCollapseIdle(rows: seq<Row>, k: nat, st: ScanState, lo: int, hi: int)
    requires k < |rows| && Below(st, k) && Shape(rows, st)
    requires StopInv(rows, k, lo, hi, st) && CollapseInv(rows, k, lo, hi, st.out)
    requires st.stopped || !rows[k].live
    ensures CollapseInv(rows, k + 1, lo, hi, st.out)
  {
    if st.stopped {
      var i :| 0 <= i < k && StopRow(rows, i, lo, hi);
      assert !NoStopBefore(rows, k, lo, hi);
    }
  }

  lemma StepCollapseActive(rows: seq<Row>, k: nat, st: ScanState, lo: int, hi: int)
    requires k < |rows| && Below(st, k) && Shape(rows, st)
    requires CollapseInv(rows, k, lo, hi, st.out)
    requires !st.stopped && rows[k].live
    ensures Below(Step(rows, k, st, lo, hi), k + 1)
    ensures CollapseInv(rows, k + 1, lo, hi, Step(rows, k, st, lo, hi).out)
  {
    var r := Step(rows, k, st, lo, hi);
    var c := Cross(rows, k, st, lo);
    CrossShape(rows, k, st, lo);
    assert r == Admit(rows, k, c, lo, hi);
    assert forall j :: 0 <= j < |c.out| ==> c.out[j] < k;
    assert r.out == c.out || r.out == c.out + [k];
    if InWindow(rows[k], lo, hi) {
      CollapseNew(rows, k, c, lo, hi);
    }
    if c.out == st.out {
      CollapseKeep(rows, k, lo, hi, st.out, r.out);
    } else {
      assert st.out == [];
      assert forall i :: 0 <= i < k && rows[i].live && InWindow(rows[i], lo, hi) && NoStopBefore(rows, i, lo, hi) ==> false;
    }
  }

  lemma StepCollapse(rows: seq<Row>, k: nat, st: ScanState, lo: int, hi: int)
    requires k < |rows| && Below(st, k) && Shape(rows, st)
    requires StopInv(rows, k, lo, hi, st) && CollapseInv(rows, k, lo, hi, st.out)
    ensures Below(Step(rows, k, st, lo, hi), k + 1)
    ensures CollapseInv(rows, k + 1, lo, hi, Step(rows, k, st, lo, hi).out)
  {
    StepShape(rows, k, st, lo, hi);
    if st.stopped || !rows[k].live {
      StepCollapseIdle(rows, k, st, lo, hi);
    } else {
      StepCollapseActive(rows, k, st, lo, hi);
    }
  }

  lemma {:induction false} ScanCollapse(rows: seq<Row>, n: nat, lo: int, hi: int)
    requires n <= |rows|
    ensures Below(Scan(rows, n, lo, hi), n) && CollapseInv(rows, n, lo, hi, Scan(rows, n, lo, hi).out)
  {
    if n > 0 {
      var prev := Scan(rows, n - 1, lo, hi);
      assert Scan(rows, n, lo, hi) == Step(rows, n - 1, prev, lo, hi);
      ScanCollapse(rows, n - 1, lo, hi);
      ScanShape(rows, n - 1, lo, hi);
      ScanStop(rows, n - 1, lo, hi);
      StepCollapse(rows, n - 1, prev, lo, hi);
    }
  }

  /** Once the loop has broken out, later rows change nothing. */
  lemma {:induction false} StoppedStays(rows: seq<Row>, k: nat, n: nat, lo: int, hi: int)
    requires k <= n <= |rows| && Scan(rows, k, lo, hi).stopped
    ensures Scan(rows, n, lo, hi) == Scan(rows, k, lo, hi)
  {
    if n > k {
      StoppedStays(rows, k, n - 1, lo, hi);
    }
  }

  // ---------------------------------------------------------------------
  // Properties of `filter_snapshots`, stated on the snapshots themselves

  /** Row `c` is the first eligible snapshot after the window start: every
      eligible snapshot before it lies before the start. */
  predicate Crossing(rows: seq<Snapshot>, c: nat, lo: int) {
    && c < |rows| && Eligible(rows[c]) && Instant(rows[c]) > lo
    && (forall k :: 0 <= k < c && Eligible(rows[k]) ==> Instant(rows[k]) < lo)
  }

  /** Row `a` is the anchor released at the crossing `c`: the last eligible
      snapshot before it. */
  predicate AnchorOf(rows: seq<Snapshot>, a: nat, c: nat, lo: int) {
    && Crossing(rows, c, lo) && a < c && Eligible(rows[a])
    && (forall k :: a < k < c ==> !Eligible(rows[k]))
  }

  /** Rows that make the loop break: eligible, not before the start, past the end. */
  predicate Breaks(rows: seq<Snapshot>, k: nat, lo: int, hi: int) {
    k < |rows| && Eligible(rows[k]) && Instant(rows[k]) >= lo && Instant(rows[k]) > hi
  }

  lemma ViewsAnchor(rows: seq<Snapshot>, a: nat, c: nat, lo: int)
    requires c < |rows|
    ensures IsAnchorFor(Views(rows), a, c, lo) <==> AnchorOf(rows, a, c, lo)
  {
    var v := Views(rows);
    if IsAnchorFor(v, a, c, lo) {
      forall k | 0 <= k < c && Eligible(rows[k]) ensures Instant(rows[k]) < lo {
        assert v[k].live;
      }
    }
    if AnchorOf(rows, a, c, lo) {
      forall k | 0 <= k < c && v[k].live ensures v[k].instant < lo {
        assert Eligible(rows[k]);
      }
    }
  }

  /** The result is a subsequence of the input: increasing row indices, each
      row with a parsed time and a numeric status below 300. */
  lemma SelectedIsSubsequence(rows: seq<Snapshot>, lo: int, hi: int)
    ensures var idx := SelectedIndices(rows, lo, hi);
      && (forall j :: 0 <= j < |idx| ==> idx[j] < |rows| && Eligible(rows[idx[j]]))
      && (forall j1, j2 :: 0 <= j1 < j2 < |idx| ==> idx[j1] < idx[j2])
      && Selected(rows, lo, hi) == Gather(rows, idx)
  {
    ScanShape(Views(rows), |rows|, lo, hi);
  }

  /** Two consecutive results never share a digest. */
  lemma SelectedDigestsDiffer(rows: seq<Snapshot>, lo: int, hi: int)
    ensures var r := Selected(rows, lo, hi);
      forall j :: 0 < j < |r| ==> r[j - 1].digest != r[j].digest
  {
    var v := Views(rows);
    ScanShape(v, |rows|, lo, hi);
    var idx := SelectedIndices(rows, lo, hi);
    forall j | 0 < j < |idx| ensures rows[idx[j - 1]].digest != rows[idx[j]].digest {
      assert v[idx[j - 1]].digest != v[idx[j]].digest;
    }
  }

  /** Every result after the first lies in the window; the first lies in it
      or is the anchor released when the scan crossed the window start. */
  lemma SelectedWithinWindow(rows: seq<Snapshot>, lo: int, hi: int)
    ensures var r := Selected(rows, lo, hi);
      forall j :: 0 < j < |r| ==> Eligible(r[j]) && lo <= Instant(r[j]) <= hi
    ensures var idx := SelectedIndices(rows, lo, hi);
      |idx| > 0 && idx[0] < |rows| ==>
        (Eligible(rows[idx[0]]) && lo <= Instant(rows[idx[0]]) <= hi) ||
        exists c :: AnchorOf(rows, idx[0], c, lo)
  {
    var v := Views(rows);
    var st := Scan(v, |rows|, lo, hi);
    ScanShape(v, |rows|, lo, hi);
    ScanWindow(v, |rows|, lo, hi);
    var idx := st.out;
    forall j | 0 < j < |idx| ensures Eligible(rows[idx[j]]) && lo <= Instant(rows[idx[j]]) <= hi {
      assert v[idx[j]].live && InWindow(v[idx[j]], lo, hi);
    }
    if |idx| > 0 && !InWindow(v[idx[0]], lo, hi) {
      var c :| 0 <= c < |rows| && IsAnchorFor(v, idx[0], c, lo);
      ViewsAnchor(rows, idx[0], c, lo);
    }
  }

  /** When the scan crosses the window start with an eligible row before
      it, the first result is the anchor. */
  lemma SelectedStartsWithAnchor(rows: seq<Snapshot>, lo: int, hi: int, c: nat, k: nat)
    requires Crossing(rows, c, lo) && k < c && Eligible(rows[k])
    ensures var idx := SelectedIndices(rows, lo, hi);
      |idx| > 0 && AnchorOf(rows, idx[0], c, lo)
  {
    var v := Views(rows);
    var st := Scan(v, |rows|, lo, hi);
    ScanAnchor(v, |rows|, lo, hi);
    assert AnchoredCrossing(v, c, lo) by {
      assert v[k].live;
      forall i | 0 <= i < c && v[i].live ensures v[i].instant < lo {
        assert Eligible(rows[i]);
      }
    }
    ViewsAnchor(rows, st.out[0], c, lo);
  }

  /** When the crossing row already lies past the window end, the anchor
      is the only result. */
  lemma SelectedOnlyAnchor(rows: seq<Snapshot>, lo: int, hi: int, c: nat, k: nat)
    requires Crossing(rows, c, lo) && Instant(rows[c]) > hi && k < c && Eligible(rows[k])
    ensures var idx := SelectedIndices(rows, lo, hi);
      |idx| == 1 && AnchorOf(rows, idx[0], c, lo)
  {
    var idx := SelectedIndices(rows, lo, hi);
    SelectedStartsWithAnchor(rows, lo, hi, c, k);
    SelectedStopsAtBreak(rows, lo, hi, c);
    SelectedIsSubsequence(rows, lo, hi);
    var second := if |idx| > 1 then idx[1] else c;
    assert second >= c;
  }

  /** Nothing at or after a row that makes the loop break is returned. */
  lemma SelectedStopsAtBreak(rows: seq<Snapshot>, lo: int, hi: int, k: nat)
    requires Breaks(rows, k, lo, hi)
    ensures var idx := SelectedIndices(rows, lo, hi);
      forall j :: 0 <= j < |idx| ==> idx[j] < k
  {
    var v := Views(rows);
    ScanShape(v, |rows|, lo, hi);
    ScanStop(v, |rows|, lo, hi);
    assert StopRow(v, k, lo, hi);
  }

  /** If every eligible row lies before the window start, nothing is returned. */
  lemma SelectedEmptyBeforeWindow(rows: seq<Snapshot>, lo: int, hi: int)
    requires forall k :: 0 <= k < |rows| && Eligible(rows[k]) ==> Instant(rows[k]) < lo
    ensures Selected(rows, lo, hi) == []
  {
    var v := Views(rows);
    var st := Scan(v, |rows|, lo, hi);
    ScanShape(v, |rows|, lo, hi);
    ScanWindow(v, |rows|, lo, hi);
  }

  /** Every eligible row inside the window that comes before any breaking
      row is returned, or repeats the digest of the last row returned
      before it. */
  lemma SelectedCollapsesOnlyRepeats(rows: seq<Snapshot>, lo: int, hi: int, k: nat)
    requires k < |rows| && Eligible(rows[k]) && lo <= Instant(rows[k]) <= hi
    requires forall i :: 0 <= i < k ==> !Breaks(rows, i, lo, hi)
    ensures var idx := SelectedIndices(rows, lo, hi);
      k in idx || exists j :: LastBefore(idx, j, k) && idx[j] < |rows| && rows[idx[j]].digest == rows[k].digest
  {
    var v := Views(rows);
    var st := Scan(v, |rows|, lo, hi);
    ScanCollapse(v, |rows|, lo, hi);
    assert v[k].live && InWindow(v[k], lo, hi);
    assert NoStopBefore(v, k, lo, hi) by {
      forall i | 0 <= i < k ensures !StopRow(v, i, lo, hi) {
        assert !Breaks(rows, i, lo, hi);
      }
    }
    if k !in st.out {
      var j :| LastBefore(st.out, j, k) && v[st.out[j]].digest == v[k].digest;
    }
  }

  // ---------------------------------------------------------------------
  // Worked cases

  function Capture(d: UtcDateTime, status: string, digest: string): Snapshot {
    Snapshot(Some(d), FormatTimestamp(d), Some("http://example.com/"), status, digest)
  }

  /** Captures at T0 < T5 < T10 with digests A, A, B and the window [T5, T10]:
      the capture at T5 (the window start itself) and the one at T10. */
  lemma ScenarioBoundaryAnchor(d0: UtcDateTime, d5: UtcDateTime, d10: UtcDateTime)
    requires Epoch(d0) < Epoch(d5) < Epoch(d10)
    ensures var rows := [Capture(d0, "200", "A"), Capture(d5, "200", "A"), Capture(d10, "200", "B")];
      Selected(rows, Epoch(d5), Epoch(d10)) == [rows[1], rows[2]]
  {
    var rows := [Capture(d0, "200", "A"), Capture(d5, "200", "A"), Capture(d10, "200", "B")];
    var lo, hi := Epoch(d5), Epoch(d10);
    var v := Views(rows);
    assert DigitsValue("200") == 200 by { assert DigitsValue("20") == 20; }
    assert Scan(v, 1, lo, hi) == ScanState([], Some(0), None, false);
    assert Scan(v, 2, lo, hi) == ScanState([1], Some(1), Some("A"), false);
    assert Scan(v, 3, lo, hi) == ScanState([1, 2], Some(1), Some("B"), false);
  }

  /** A single capture before the window: it becomes the pending anchor but
      no later row releases it, so nothing is returned. */
  lemma ScenarioLoneEarlyCapture(d0: UtcDateTime, d5: UtcDateTime, d10: UtcDateTime)
    requires Epoch(d0) < Epoch(d5) <= Epoch(d10)
    ensures Selected([Capture(d0, "200", "A")], Epoch(d5), Epoch(d10)) == []
  {
    var rows := [Capture(d0, "200", "A")];
    assert DigitsValue("200") == 200 by { assert DigitsValue("20") == 20; }
    assert Scan(Views(rows), 1, Epoch(d5), Epoch(d10)).out == [];
  }

  /** A redirect capture is never returned, whatever the window. */
  lemma ScenarioRedirect(d1: UtcDateTime, lo: int, hi: int)
    ensures Selected([Capture(d1, "301", "X")], lo, hi) == []
  {
    var rows := [Capture(d1, "301", "X")];
    assert DigitsValue("301") == 301 by { assert DigitsValue("30") == 30; }
    var v := Views(rows);
    assert !v[0].live;
    assert Scan(v, 1, lo, hi) == Step(v, 0, Start, lo, hi) == Start;
  }
}
