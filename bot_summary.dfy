/**
 * The weekly summary of bot.py: the scan log and the outcomes file are read
 * over the current window and the one before it, the reported fullnames are
 * split into removed, approved, pending and left up, and a summary is posted
 * when one is due, recording when it was posted.
 */
module BotSummary {
  import opened Wrappers
  import opened Text
  import opened Records
  import opened BotUtil

  /** A closed interval of epoch seconds. */
  datatype Window = Window(start: real, end: real)

  /** `week_window` (and `last_week_window`, which computes the same): the `days` days ending at `now`. */
  function WeekWindow(now: real, days: int): Window {
    Window(now - days as real * 86400.0, now)
  }

  /** The window before the current one, `last_week_window(now - days, days)`. */
  function PriorWindow(now: real, days: int): (w: Window)
    ensures w.end == WeekWindow(now, days).start
    ensures w.end - w.start == WeekWindow(now, days).end - WeekWindow(now, days).start
  {
    WeekWindow(now - days as real * 86400.0, days)
  }

  /** `in_window`: both ends included. */
  predicate InWindow(ts: real, w: Window) {
    w.start <= ts <= w.end
  }

  /** `tfn_of` on a scan-log row: `target_fullname or id or ""`, normalised as a comment. */
  function RowTfn(r: ScanRow): string {
    NormalizeFullname("comment", Or(r.targetFullname, r.id).GetOr(""))
  }

  /** `tfn_of` on an outcomes line. */
  function LineTfn(o: OutcomeLine): string {
    NormalizeFullname("comment", Or(o.targetFullname, o.id).GetOr(""))
  }

  /** `reported_this`: the scan-log rows inside the window that were reported, in file order. */
  function ReportedIn(rows: seq<ScanRow>, w: Window): (r: seq<ScanRow>)
    ensures |r| <= |rows|
    decreases |rows|
  {
    if rows == [] then []
    else
      var last := rows[|rows| - 1];
      var init := ReportedIn(rows[..|rows| - 1], w);
      if last.reported && InWindow(last.ts, w) then init + [last] else init
  }

  /** `reported_this` holds exactly the reported rows inside the window. */
  lemma {:induction false} ReportedInMeaning(rows: seq<ScanRow>, w: Window)
    ensures var r := ReportedIn(rows, w);
      && (forall i | 0 <= i < |r| :: r[i] in rows && r[i].reported && InWindow(r[i].ts, w))
      && (forall i | 0 <= i < |rows| && rows[i].reported && InWindow(rows[i].ts, w) :: rows[i] in r)
    decreases |rows|
  {
    if rows != [] {
      var init := rows[..|rows| - 1];
      ReportedInMeaning(init, w);
      assert forall i | 0 <= i < |rows| - 1 :: rows[i] == init[i];
      var ri := ReportedIn(init, w);
      var r := ReportedIn(rows, w);
      assert r == ri || r == ri + [rows[|rows| - 1]];
      assert forall i | 0 <= i < |ri| :: r[i] == ri[i];
    }
  }

  /** The positions of the reported rows inside the window. */
  ghost function ReportedPositions(rows: seq<ScanRow>, w: Window): set<int> {
    set i | 0 <= i < |rows| && rows[i].reported && InWindow(rows[i].ts, w)
  }

  /** `reported_n = len(reported_this)` counts rows, not fullnames: one per reported row in the window. */
  lemma {:induction false} ReportedInCount(rows: seq<ScanRow>, w: Window)
    ensures |ReportedIn(rows, w)| == |ReportedPositions(rows, w)|
    decreases |rows|
  {
    if rows != [] {
      var n := |rows| - 1;
      var init := rows[..n];
      ReportedInCount(init, w);
      var before := ReportedPositions(init, w);
      var now := ReportedPositions(rows, w);
      assert forall i | 0 <= i < n :: rows[i] == init[i];
      if rows[n].reported && InWindow(rows[n].ts, w) {
        assert now == before + {n};
        assert n !in before;
      } else {
        assert now == before;
      }
    }
  }

  /** The set of fullnames the rows name, `{tfn_of(r) for r in rows}`. */
  function TfnsOf(rows: seq<ScanRow>): (s: set<string>)
    ensures |s| <= |rows|
    decreases |rows|
  {
    if rows == [] then {}
    else TfnsOf(rows[..|rows| - 1]) + {RowTfn(rows[|rows| - 1])}
  }

  /** The time a summary reads off an outcomes line: `int(ts or created_utc or 0)`. */
  function OutcomeTs(o: OutcomeLine): int {
    Trunc(OrReal(o.ts, o.createdUtc).GetOr(0.0))
  }

  /** The outcome word a summary reads: `str(outcome or action or "").lower()`. */
  function OutcomeText(o: OutcomeLine): string {
    Lower(Or(o.outcome, o.action).GetOr(""))
  }

  predicate IsRemovedText(t: string) {
    Contains(t, "removed") || t == "removecomment" || t == "removelink"
  }

  predicate IsApprovedText(t: string) {
    Contains(t, "approved") || t == "approvecomment" || t == "approvelink"
  }

  /** An outcomes line the summary looks at: inside the window and about a reported fullname. */
  predicate Counted(o: OutcomeLine, w: Window, reported: set<string>) {
    InWindow(OutcomeTs(o) as real, w) && LineTfn(o) in reported
  }

  /** `removed_tfns`: the reported fullnames some counted line says were removed. */
  function RemovedTfns(outs: seq<OutcomeLine>, w: Window, reported: set<string>): set<string>
    decreases |outs|
  {
    if outs == [] then {}
    else
      var o := outs[|outs| - 1];
      var init := outs[..|outs| - 1];
      RemovedTfns(init, w, reported)
        + (if Counted(o, w, reported) && IsRemovedText(OutcomeText(o)) then {LineTfn(o)} else {})
  }

  /** A fullname is in `removed_tfns` exactly when some counted line about it says it was removed. */
  lemma {:induction false} RemovedTfnsMeaning(outs: seq<OutcomeLine>, w: Window, reported: set<string>, x: string)
    ensures x in RemovedTfns(outs, w, reported) <==>
      exists i | 0 <= i < |outs| :: Counted(outs[i], w, reported) && IsRemovedText(OutcomeText(outs[i])) && LineTfn(outs[i]) == x
    decreases |outs|
  {
    if outs != [] {
      var init := outs[..|outs| - 1];
      RemovedTfnsMeaning(init, w, reported, x);
      assert forall i | 0 <= i < |init| :: init[i] == outs[i];
    }
  }

  lemma RemovedTfnsSnoc(outs: seq<OutcomeLine>, i: nat, w: Window, reported: set<string>)
    requires i < |outs|
    ensures RemovedTfns(outs[..i + 1], w, reported) == RemovedTfns(outs[..i], w, reported)
      + (if Counted(outs[i], w, reported) && IsRemovedText(OutcomeText(outs[i])) then {LineTfn(outs[i])} else {})
  {
    assert outs[..i + 1][..i] == outs[..i];
  }

  /**
   * `approved_tfns`: the reported fullnames some counted line says were
   * approved, a line saying both counting as removed only.
   */
  function ApprovedTfns(outs: seq<OutcomeLine>, w: Window, reported: set<string>): set<string>
    decreases |outs|
  {
    if outs == [] then {}
    else
      var o := outs[|outs| - 1];
      var init := outs[..|outs| - 1];
      ApprovedTfns(init, w, reported)
        + (if Counted(o, w, reported) && !IsRemovedText(OutcomeText(o)) && IsApprovedText(OutcomeText(o))
           then {LineTfn(o)} else {})
  }

  /**
   * A fullname is in `approved_tfns` exactly when some counted line about it
   * says it was approved and does not say it was removed.
   */
  lemma {:induction false} ApprovedTfnsMeaning(outs: seq<OutcomeLine>, w: Window, reported: set<string>, x: string)
    ensures x in ApprovedTfns(outs, w, reported) <==>
      exists i | 0 <= i < |outs| :: Counted(outs[i], w, reported) && !IsRemovedText(OutcomeText(outs[i]))
                                    && IsApprovedText(OutcomeText(outs[i])) && LineTfn(outs[i]) == x
    decreases |outs|
  {
    if outs != [] {
      var init := outs[..|outs| - 1];
      ApprovedTfnsMeaning(init, w, reported, x);
      assert forall i | 0 <= i < |init| :: init[i] == outs[i];
    }
  }

  lemma ApprovedTfnsSnoc(outs: seq<OutcomeLine>, i: nat, w: Window, reported: set<string>)
    requires i < |outs|
    ensures ApprovedTfns(outs[..i + 1], w, reported) == ApprovedTfns(outs[..i], w, reported)
      + (if Counted(outs[i], w, reported) && !IsRemovedText(OutcomeText(outs[i])) && IsApprovedText(OutcomeText(outs[i]))
         then {LineTfn(outs[i])} else {})
  {
    assert outs[..i + 1][..i] == outs[..i];
  }

  /** `pending_tfns`: reported fullnames from rows within the decision lag that have no decision. */
  function PendingTfns(rows: seq<ScanRow>, lagCutoff: real, decided: set<string>): set<string>
    decreases |rows|
  {
    if rows == [] then {}
    else
      var last := rows[|rows| - 1];
      var init := rows[..|rows| - 1];
      PendingTfns(init, lagCutoff, decided)
        + (if last.ts >= lagCutoff && RowTfn(last) !in decided then {RowTfn(last)} else {})
  }

  /**
   * A fullname is pending exactly when it is undecided and some reported row
   * naming it is no older than the lag cutoff.
   */
  lemma {:induction false} PendingTfnsMeaning(rows: seq<ScanRow>, lagCutoff: real, decided: set<string>, x: string)
    ensures x in PendingTfns(rows, lagCutoff, decided) <==>
      x !in decided && exists i | 0 <= i < |rows| :: rows[i].ts >= lagCutoff && RowTfn(rows[i]) == x
    decreases |rows|
  {
    if rows != [] {
      var init := rows[..|rows| - 1];
      PendingTfnsMeaning(init, lagCutoff, decided, x);
      assert forall i | 0 <= i < |init| :: init[i] == rows[i];
    }
  }

  /** Only reported fullnames are counted as removed or approved. */
  lemma {:induction false} DecisionsWithin(outs: seq<OutcomeLine>, w: Window, reported: set<string>)
    ensures RemovedTfns(outs, w, reported) <= reported
    ensures ApprovedTfns(outs, w, reported) <= reported
    decreases |outs|
  {
    if outs != [] {
      DecisionsWithin(outs[..|outs| - 1], w, reported);
    }
  }

  /** Pending fullnames are reported and undecided. */
  lemma {:induction false} PendingWithin(rows: seq<ScanRow>, lagCutoff: real, decided: set<string>)
    ensures PendingTfns(rows, lagCutoff, decided) <= TfnsOf(rows)
    ensures PendingTfns(rows, lagCutoff, decided) !! decided
    decreases |rows|
  {
    if rows != [] {
      PendingWithin(rows[..|rows| - 1], lagCutoff, decided);
    }
  }

  /** The fullname sets of one window's summary. */
  datatype Tally = Tally(reported: set<string>, removed: set<string>, approved: set<string>,
                         pending: set<string>, leftUp: set<string>)
  {
    function Decided(): set<string> { removed + approved }
  }

  /** The fullname sets `compute_weekly_summary` builds for one window. */
  function TallyOf(reportedRows: seq<ScanRow>, outs: seq<OutcomeLine>, w: Window, lagCutoff: real): Tally {
    var reported := TfnsOf(reportedRows);
    var removed := RemovedTfns(outs, w, reported);
    var approved := ApprovedTfns(outs, w, reported);
    var pending := PendingTfns(reportedRows, lagCutoff, removed + approved);
    Tally(reported, removed, approved, pending, reported - (removed + approved) - pending)
  }

  /**
   * The fullnames reported in the window fall apart into decided, pending
   * and left up: the three are pairwise disjoint and together are exactly
   * the reported set, which is no larger than the number of reported rows.
   */
  lemma TallyPartition(reportedRows: seq<ScanRow>, outs: seq<OutcomeLine>, w: Window, lagCutoff: real)
    ensures var t := TallyOf(reportedRows, outs, w, lagCutoff);
      && |t.reported| <= |reportedRows|
      && t.removed <= t.reported && t.approved <= t.reported
      && t.pending <= t.reported && t.leftUp <= t.reported
      && t.pending !! t.Decided() && t.leftUp !! t.Decided() && t.leftUp !! t.pending
      && t.Decided() + t.pending + t.leftUp == t.reported
  {
    var reported := TfnsOf(reportedRows);
    DecisionsWithin(outs, w, reported);
    PendingWithin(reportedRows, lagCutoff, RemovedTfns(outs, w, reported) + ApprovedTfns(outs, w, reported));
  }

  /** `delta_pct`'s three kinds of answer: `None`, `math.inf`, or a percentage. */
  datatype Delta = NotAvailable | Unbounded | Percent(p: real)

  /** `delta_pct`: the change from `prev` to `curr` in percent of `prev`. */
  function DeltaPct(curr: Option<real>, prev: Option<real>): Delta {
    if curr.None? || prev.None? then NotAvailable
    else if prev.value == 0.0 then (if curr.value > 0.0 then Unbounded else Percent(0.0))
    else Percent((curr.value - prev.value) / prev.value * 100.0)
  }

  /**
   * `delta_pct` is `None` exactly when a value is missing, infinite exactly
   * on a rise from 0, and otherwise the percentage that, applied to `prev`,
   * gives back `curr`; from a positive `prev` its sign is that of the change.
   */
  lemma DeltaPctMeaning(curr: Option<real>, prev: Option<real>)
    ensures var d := DeltaPct(curr, prev);
      && (d.NotAvailable? <==> curr.None? || prev.None?)
      && (d.Unbounded? <==> prev == Some(0.0) && curr.Some? && curr.value > 0.0)
      && (curr.Some? && prev == Some(0.0) && curr.value <= 0.0 ==> d == Percent(0.0))
      && (curr.Some? && prev.Some? && prev.value != 0.0 ==>
            d.Percent? && prev.value + prev.value * d.p / 100.0 == curr.value)
      && (curr.Some? && prev.Some? && prev.value > 0.0 ==>
            d.Percent? && (d.p > 0.0 <==> curr.value > prev.value) && (d.p == 0.0 <==> curr.value == prev.value))
  {
    if curr.Some? && prev.Some? && prev.value != 0.0 {
      var c, p := curr.value, prev.value;
      var q := (c - p) / p;
      assert q * p == c - p;
      assert p + p * (q * 100.0) / 100.0 == c;
      if p > 0.0 {
        assert q > 0.0 <==> c - p > 0.0;
        assert q == 0.0 <==> c - p == 0.0;
      }
    }
  }

  /** `align_pct`: removed reports as a capped percentage of all reports, 0 without reports. */
  function AlignPct(removedN: nat, reportedN: nat): (r: real)
    ensures 0.0 <= r <= 100.0
    ensures reportedN == 0 ==> r == 0.0
  {
    CapPct(if reportedN != 0 then removedN as real / reportedN as real * 100.0 else 0.0)
  }

  /** With no more removals than reports the cap never bites: the ratio is already in [0, 100]. */
  lemma AlignPctUncapped(removedN: nat, reportedN: nat)
    requires removedN <= reportedN
    ensures reportedN != 0 ==> AlignPct(removedN, reportedN) == removedN as real / reportedN as real * 100.0
    ensures reportedN == 0 ==> AlignPct(removedN, reportedN) == 0.0
  {
    if reportedN != 0 {
      var q := removedN as real / reportedN as real;
      assert q * reportedN as real == removedN as real;
      assert q <= 1.0;
    }
  }

  /** The settings the summary reads from `Config`. */
  datatype SummaryConfig = SummaryConfig(
    enabled: bool,
    force: bool,
    webhook: string,
    intervalDays: int,
    decisionLagHours: int)

  /** The numbers a weekly summary reports; the averages and the text layout are not modelled. */
  datatype Summary = Summary(
    window: Window,
    reportedN: nat,
    removedN: nat,
    approvedN: nat,
    leftUpN: nat,
    pendingN: nat,
    alignPct: real,
    reportedPriorN: nat,
    removedPriorN: nat,
    reportedDelta: Delta,
    removedDelta: Delta)

  /** The counts of a summary, from the current window's reported rows and tally and the prior window's. */
  function SummaryOf(w: Window, rep: seq<ScanRow>, t: Tally, repPrior: seq<ScanRow>, removedPrior: set<string>): Summary {
    Summary(w, |rep|, |t.removed|, |t.approved|, |t.leftUp|, |t.pending|,
            AlignPct(|t.removed|, |rep|), |repPrior|, |removedPrior|,
            DeltaPct(Some(|rep| as real), Some(|repPrior| as real)),
            DeltaPct(Some(|t.removed| as real), Some(|removedPrior| as real)))
  }

  /** `compute_weekly_summary`'s numbers, for scan-log rows `log` and outcomes lines `outs` at time `now`. */
  function WeeklySummary(cfg: SummaryConfig, now: real, log: seq<ScanRow>, outs: seq<OutcomeLine>): Summary {
    WindowSummary(cfg, WeekWindow(now, cfg.intervalDays), PriorWindow(now, cfg.intervalDays), log, outs)
  }

  /** `lag_cutoff_ts`: reports newer than this are still waiting for a decision. */
  function LagCutoff(cfg: SummaryConfig, w: Window): real {
    w.end - cfg.decisionLagHours as real * 3600.0
  }

  /** The summary for a current window `w` and a prior window `pw`. */
  function WindowSummary(cfg: SummaryConfig, w: Window, pw: Window, log: seq<ScanRow>, outs: seq<OutcomeLine>): Summary {
    SummaryFrom(w, ReportedIn(log, w), outs, LagCutoff(cfg, w), pw, ReportedIn(log, pw))
  }

  /** The summary from the current window's reported rows and the prior window's. */
  function SummaryFrom(w: Window, rep: seq<ScanRow>, outs: seq<OutcomeLine>, lagCutoff: real,
                       pw: Window, repPrior: seq<ScanRow>): Summary {
    SummaryOf(w, rep, TallyOf(rep, outs, w, lagCutoff), repPrior, RemovedTfns(outs, pw, TfnsOf(repPrior)))
  }

  /**
   * What the summary's numbers mean: no more removed, approved, pending or
   * left-up fullnames than reports, pending and left up together no more
   * than the distinct reported fullnames, and the alignment percentage the
   * plain ratio of removals to reports.
   */
  lemma WeeklySummaryBounds(cfg: SummaryConfig, now: real, log: seq<ScanRow>, outs: seq<OutcomeLine>)
    ensures var s := WeeklySummary(cfg, now, log, outs);
      && s.removedN <= s.reportedN && s.approvedN <= s.reportedN
      && s.pendingN + s.leftUpN <= s.reportedN
      && s.removedPriorN <= s.reportedPriorN
      && 0.0 <= s.alignPct <= 100.0
      && (s.reportedN != 0 ==> s.alignPct == s.removedN as real / s.reportedN as real * 100.0)
      && (s.reportedN == 0 ==> s.alignPct == 0.0)
  {
    var w := WeekWindow(now, cfg.intervalDays);
    var pw := PriorWindow(now, cfg.intervalDays);
    SummaryFromBounds(w, ReportedIn(log, w), outs, LagCutoff(cfg, w), pw, ReportedIn(log, pw));
  }

  /** The bounds of `WeeklySummaryBounds`, for any pair of windows. */
  lemma SummaryFromBounds(w: Window, rep: seq<ScanRow>, outs: seq<OutcomeLine>, lagCutoff: real,
                          pw: Window, repPrior: seq<ScanRow>)
    ensures var s := SummaryFrom(w, rep, outs, lagCutoff, pw, repPrior);
      && s.removedN <= s.reportedN && s.approvedN <= s.reportedN
      && s.pendingN + s.leftUpN <= s.reportedN
      && s.removedPriorN <= s.reportedPriorN
      && 0.0 <= s.alignPct <= 100.0
      && (s.reportedN != 0 ==> s.alignPct == s.removedN as real / s.reportedN as real * 100.0)
      && (s.reportedN == 0 ==> s.alignPct == 0.0)
  {
    var t := TallyOf(rep, outs, w, lagCutoff);
    TallyPartition(rep, outs, w, lagCutoff);
    SubsetCard(t.removed, t.reported);
    SubsetCard(t.approved, t.reported);
    SubsetCard(t.pending + t.leftUp, t.reported);
    DecisionsWithin(outs, pw, TfnsOf(repPrior));
    SubsetCard(RemovedTfns(outs, pw, TfnsOf(repPrior)), TfnsOf(repPrior));
    AlignPctUncapped(|t.removed|, |rep|);
  }

  lemma SubsetCard(a: set<string>, b: set<string>)
    requires a <= b
    ensures |a| <= |b|
  {
    assert b == a + (b - a);
  }

  /** The window and count `compute_weekly_summary` returns beside the text, saved as `last_meta`. */
  datatype Meta = Meta(start: real, end: real, reportedN: nat)

  /** The summary state file: `last_post_ts` and `last_meta`, `None` when absent (or the file unreadable). */
  datatype SummaryState = SummaryState(lastPostTs: Option<int>, lastMeta: Option<Meta>)

  /** The `due` expression: forced, no (truthy) last post, or a full interval since it. */
  predicate SummaryDue(state: SummaryState, now: real, days: int, force: bool) {
    force
    || !(state.lastPostTs.Some? && state.lastPostTs.value != 0)
    || now - state.lastPostTs.value as real >= days as real * 86400.0
  }

  /** The state after `maybe_post_weekly_summary`: stamped with `int(now)` and the summary's meta when due. */
  function StateAfter(cfg: SummaryConfig, state: SummaryState, now: real, log: seq<ScanRow>,
                      outs: seq<OutcomeLine>): SummaryState {
    if cfg.enabled && SummaryDue(state, now, cfg.intervalDays, cfg.force) then
      var s := WeeklySummary(cfg, now, log, outs);
      SummaryState(Some(Trunc(now)), Some(Meta(s.window.start, s.window.end, s.reportedN)))
    else state
  }

  /**
   * Once a summary has been posted (at a time of at least one second), the
   * next one is due, unless forced, exactly when a full interval has passed
   * since the truncated posting time.
   */
  lemma PostRestartsInterval(cfg: SummaryConfig, state: SummaryState, now: real, log: seq<ScanRow>,
                             outs: seq<OutcomeLine>, later: real)
    requires cfg.enabled && SummaryDue(state, now, cfg.intervalDays, cfg.force)
    requires now >= 1.0
    ensures var next := StateAfter(cfg, state, now, log, outs);
      next.lastPostTs == Some(Trunc(now))
      && (SummaryDue(next, later, cfg.intervalDays, false) <==> later - Trunc(now) as real >= cfg.intervalDays as real * 86400.0)
  {
    TruncAtLeastOne(now);
  }

  /** A summary that is not due changes nothing. */
  lemma NotDueKeepsState(cfg: SummaryConfig, state: SummaryState, now: real, log: seq<ScanRow>,
                         outs: seq<OutcomeLine>)
    requires !SummaryDue(state, now, cfg.intervalDays, cfg.force)
    ensures StateAfter(cfg, state, now, log, outs) == state
    ensures !cfg.force && state.lastPostTs.Some? && state.lastPostTs.value != 0
  {
  }

  /**
   * The first outcomes loop of `compute_weekly_summary`: adds each counted
   * line's fullname to the removed or the approved set.
   */
  method CollectDecisions(outs: seq<OutcomeLine>, w: Window, reportedTfns: set<string>)
    returns (removed: set<string>, approved: set<string>)
    ensures removed == RemovedTfns(outs, w, reportedTfns)
    ensures approved == ApprovedTfns(outs, w, reportedTfns)
  {
    removed, approved := {}, {};
    var i := 0;
    while i < |outs|
      invariant 0 <= i <= |outs|
      invariant removed == RemovedTfns(outs[..i], w, reportedTfns)
      invariant approved == ApprovedTfns(outs[..i], w, reportedTfns)
    {
      var o := outs[i];
      var ts := Trunc(OrReal(o.ts, o.createdUtc).GetOr(0.0));
      RemovedTfnsSnoc(outs, i, w, reportedTfns);
      ApprovedTfnsSnoc(outs, i, w, reportedTfns);
      if InWindow(ts as real, w) {
        var tfn := LineTfn(o);
        if tfn in reportedTfns {
          var outcome := Lower(Or(o.outcome, o.action).GetOr(""));
          if Contains(outcome, "removed") || outcome == "removecomment" || outcome == "removelink" {
            removed := removed + {tfn};
          } else if Contains(outcome, "approved") || outcome == "approvecomment" || outcome == "approvelink" {
            approved := approved + {tfn};
          }
        }
      }
      i := i + 1;
    }
    assert outs[..i] == outs;
  }

  /** The prior-window outcomes loop of `compute_weekly_summary`: removals only. */
  method CollectPriorRemovals(outs: seq<OutcomeLine>, pw: Window, repPriorTfns: set<string>)
    returns (removedPrior: set<string>)
    ensures removedPrior == RemovedTfns(outs, pw, repPriorTfns)
  {
    removedPrior := {};
    var i := 0;
    while i < |outs|
      invariant 0 <= i <= |outs|
      invariant removedPrior == RemovedTfns(outs[..i], pw, repPriorTfns)
    {
      var o := outs[i];
      var ts := Trunc(OrReal(o.ts, o.createdUtc).GetOr(0.0));
      RemovedTfnsSnoc(outs, i, pw, repPriorTfns);
      if pw.start <= ts as real <= pw.end {
        var tfn := LineTfn(o);
        if tfn in repPriorTfns {
          var outc := Lower(Or(o.outcome, o.action).GetOr(""));
          if Contains(outc, "removed") || outc == "removecomment" || outc == "removelink" {
            removedPrior := removedPrior + {tfn};
          }
        }
      }
      i := i + 1;
    }
    assert outs[..i] == outs;
  }

  /**
   * `compute_weekly_summary`: collects the reported rows of the current and
   * the prior window and the decisions on them, and derives the counts.
   */
  method ComputeWeeklySummary(cfg: SummaryConfig, now: real, log: seq<ScanRow>, outs: seq<OutcomeLine>)
    returns (s: Summary)
    ensures s == WeeklySummary(cfg, now, log, outs)
  {
    var w := WeekWindow(now, cfg.intervalDays);
    var pw := PriorWindow(now, cfg.intervalDays);
    var reportedThis := ReportedIn(log, w);
    var reportedTfns := TfnsOf(reportedThis);
    var lagCutoff := LagCutoff(cfg, w);
    var removed, approved := CollectDecisions(outs, w, reportedTfns);
    var pending := PendingTfns(reportedThis, lagCutoff, removed + approved);
    var leftUp := reportedTfns - (removed + approved) - pending;
    var reportedPrior := ReportedIn(log, pw);
    var removedPrior := CollectPriorRemovals(outs, pw, TfnsOf(reportedPrior));
    var t := Tally(reportedTfns, removed, approved, pending, leftUp);
    assert t == TallyOf(reportedThis, outs, w, lagCutoff);
    s := SummaryOf(w, reportedThis, t, reportedPrior, removedPrior);
    assert s == SummaryFrom(w, reportedThis, outs, lagCutoff, pw, reportedPrior);
    assert s == WindowSummary(cfg, w, pw, log, outs);
  }

  /**
   * `maybe_post_weekly_summary`: when enabled and due, builds the summary,
   * hands it to the webhook if one is set, and stamps the state; otherwise
   * builds, posts and saves nothing. The clock is read once, as `now`.
   */
  method MaybePostWeeklySummary(cfg: SummaryConfig, state: SummaryState, now: real, log: seq<ScanRow>,
                                outs: seq<OutcomeLine>)
    returns (state': SummaryState, posted: Option<Summary>)
    ensures state' == StateAfter(cfg, state, now, log, outs)
    ensures posted.Some? <==> cfg.enabled && SummaryDue(state, now, cfg.intervalDays, cfg.force) && cfg.webhook != ""
    ensures posted.Some? ==> posted.value == WeeklySummary(cfg, now, log, outs)
    ensures !(cfg.enabled && SummaryDue(state, now, cfg.intervalDays, cfg.force)) ==> state' == state
  {
    state', posted := state, None;
    if !cfg.enabled {
      return;
    }
    var lastPostTs := state.lastPostTs.GetOr(0);
    var due := cfg.force || lastPostTs == 0
               || now - lastPostTs as real >= cfg.intervalDays as real * 86400.0;
    if !due && !cfg.force {
      return;
    }
    var s := ComputeWeeklySummary(cfg, now, log, outs);
    if cfg.webhook != "" {
      posted := Some(s);
    }
    state' := SummaryState(Some(Trunc(now)), Some(Meta(s.window.start, s.window.end, s.reportedN)));
  }
}
