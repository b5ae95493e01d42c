/**
 * The comment loop of bot.py's `main`: each streamed comment is scored,
 * and one whose fullname has not been reported yet is reported when its
 * score reaches the threshold and logged to the scan log either way.
 */
module BotMain {
  import opened Wrappers
  import opened Text
  import opened Records
  import opened BotUtil
  import opened BotReporting

  /** A streamed comment with the Detoxify score of its body and the clock reading when it is logged. */
  datatype Comment = Comment(id: string, fullname: string, subreddit: SubRef, score: real, ts: real)

  /** The loop's state: `seen_reported`, the scan log, and the fullnames reported so far, in order. */
  datatype LoopState = LoopState(seen: set<string>, log: seq<ScanRow>, reports: seq<string>)

  /** The row `append_reported` writes for a comment. */
  function ScanRowOf(c: Comment, reported: bool): ScanRow {
    ScanRow(Some(c.id), Some(c.fullname), SubNameLower(c.subreddit), reported, c.score, c.ts)
  }

  /**
   * One pass of the loop body: an already seen comment changes nothing;
   * any other is logged once, and only a reported one is added to `seen`.
   */
  function Step(st: LoopState, c: Comment, t: Thresholds): (r: LoopState)
    ensures c.fullname in st.seen ==> r == st
    ensures c.fullname !in st.seen ==> |r.log| == |st.log| + 1 && r.log[..|st.log|] == st.log
    ensures st.seen <= r.seen && r.seen - st.seen <= {c.fullname}
    ensures c.fullname in r.seen <==> c.fullname in st.seen || ShouldReport(c.score, t)
  {
    if c.fullname in st.seen then st
    else
      var rep := ShouldReport(c.score, t);
      LoopState(if rep then st.seen + {c.fullname} else st.seen,
                st.log + [ScanRowOf(c, rep)],
                if rep then st.reports + [c.fullname] else st.reports)
  }

  /**
   * The loop over a finite prefix of the comment stream: the log only grows,
   * by at most one row per comment, and so does the seen set.
   */
  function Run(cs: seq<Comment>, st: LoopState, t: Thresholds): (r: LoopState)
    ensures |st.log| <= |r.log| <= |st.log| + |cs| && r.log[..|st.log|] == st.log
    ensures st.seen <= r.seen
    decreases |cs|
  {
    if cs == [] then st
    else
      var prev := Run(cs[..|cs| - 1], st, t);
      var r := Step(prev, cs[|cs| - 1], t);
      assert r.log[..|prev.log|][..|st.log|] == r.log[..|st.log|];
      r
  }

  /**
   * The loop's bookkeeping, relative to the seen set `seen0` it started
   * from: the seen set is `seen0` plus the reports, no fullname is reported
   * twice, and none that was seen at the start is reported.
   */
  ghost predicate Consistent(st: LoopState, seen0: set<string>) {
    && st.seen == seen0 + (set i | 0 <= i < |st.reports| :: st.reports[i])
    && (forall i | 0 <= i < |st.reports| :: st.reports[i] !in seen0)
    && (forall i, j | 0 <= i < j < |st.reports| :: st.reports[i] != st.reports[j])
  }

  lemma StepConsistent(st: LoopState, c: Comment, t: Thresholds, seen0: set<string>)
    requires Consistent(st, seen0)
    ensures Consistent(Step(st, c, t), seen0)
  {
    if c.fullname !in st.seen && ShouldReport(c.score, t) {
      var next := Step(st, c, t);
      var old_ := st.reports;
      assert next.reports == old_ + [c.fullname];
      assert forall i | 0 <= i < |old_| :: next.reports[i] == old_[i];
      assert (set i | 0 <= i < |next.reports| :: next.reports[i])
          == (set i | 0 <= i < |old_| :: old_[i]) + {c.fullname} by {
        assert next.reports[|old_|] == c.fullname;
      }
    }
  }

  /**
   * Over any stretch of the stream: `seen_reported` is the starting set plus
   * exactly the reported fullnames, no fullname is reported twice or when it
   * was already seen, and the scan log only grows, by at most one row per
   * comment.
   */
  lemma {:induction false} RunConsistent(cs: seq<Comment>, st: LoopState, t: Thresholds, seen0: set<string>)
    requires Consistent(st, seen0)
    ensures var r := Run(cs, st, t);
      && Consistent(r, seen0)
      && |st.log| <= |r.log| <= |st.log| + |cs| && r.log[..|st.log|] == st.log
      && |st.reports| <= |r.reports| && r.reports[..|st.reports|] == st.reports
    decreases |cs|
  {
    if cs != [] {
      var mid := Run(cs[..|cs| - 1], st, t);
      RunConsistent(cs[..|cs| - 1], st, t, seen0);
      StepConsistent(mid, cs[|cs| - 1], t, seen0);
      var r := Step(mid, cs[|cs| - 1], t);
      assert r.log[..|mid.log|] == mid.log;
      assert r.log[..|st.log|] == mid.log[..|st.log|];
      assert r.reports[..|mid.reports|] == mid.reports;
      assert r.reports[..|st.reports|] == mid.reports[..|st.reports|];
    }
  }

  /** Every report is of a comment of the stream whose score reached the threshold. */
  lemma {:induction false} RunReportsAboveThreshold(cs: seq<Comment>, st: LoopState, t: Thresholds, x: string)
    requires x in Run(cs, st, t).reports && x !in st.reports
    ensures exists k | 0 <= k < |cs| :: cs[k].fullname == x && cs[k].score >= t.threshold
    decreases |cs|
  {
    if cs != [] {
      var init := cs[..|cs| - 1];
      var mid := Run(init, st, t);
      if x in mid.reports {
        RunReportsAboveThreshold(init, st, t, x);
        var k :| 0 <= k < |init| && init[k].fullname == x && init[k].score >= t.threshold;
        assert cs[k] == init[k];
      } else {
        var c := cs[|cs| - 1];
        assert Step(mid, c, t).reports == mid.reports + [c.fullname];
        assert c.fullname == x;
      }
    }
  }

  /** A comment whose fullname is already in `seen_reported` is neither reported nor logged. */
  lemma StepSkipsSeen(st: LoopState, c: Comment, t: Thresholds)
    requires c.fullname in st.seen
    ensures Step(st, c, t) == st
  {
  }

  /** A fresh comment gets exactly one log row, and is reported exactly when its score reaches the threshold. */
  lemma StepLogsFresh(st: LoopState, c: Comment, t: Thresholds)
    requires c.fullname !in st.seen
    ensures var next := Step(st, c, t);
      && next.log == st.log + [ScanRowOf(c, c.score >= t.threshold)]
      && (c.fullname in next.seen <==> c.score >= t.threshold)
      && (next.reports == st.reports + [c.fullname] <==> c.score >= t.threshold)
      && (c.score < t.threshold ==> next.reports == st.reports)
  {
  }

  /**
   * Restarting is safe: when the seen set was covered by what
   * `load_seen_ids` reads back from the scan log, it still is after the
   * loop, so no comment reported before a restart is reported after it.
   */
  lemma {:induction false} RunRestartSafe(cs: seq<Comment>, st: LoopState, t: Thresholds)
    requires st.seen <= SeenIdsOf(st.log)
    requires forall k | 0 <= k < |cs| :: HasKindPrefix(cs[k].fullname)
    ensures Run(cs, st, t).seen <= SeenIdsOf(Run(cs, st, t).log)
    decreases |cs|
  {
    if cs != [] {
      var init := cs[..|cs| - 1];
      var c := cs[|cs| - 1];
      assert forall k | 0 <= k < |init| :: init[k] == cs[k];
      RunRestartSafe(init, st, t);
      var mid := Run(init, st, t);
      if c.fullname !in mid.seen {
        var row := ScanRowOf(c, ShouldReport(c.score, t));
        SeenIdsOfAppend(mid.log, [row]);
        assert [row][..0] == [];
        assert SeenIdOf(row) == Some(c.fullname);
        assert SeenIdsOf([row]) == {c.fullname};
      }
    }
  }

  /**
   * `main`'s loop over the first `|cs|` comments of the stream, after
   * `load_seen_ids`; `reports` lists the comments `do_report` is called on.
   */
  method MainLoop(cs: seq<Comment>, t: Thresholds, log0: seq<ScanRow>)
    returns (seen: set<string>, log: seq<ScanRow>, reports: seq<string>)
    ensures LoopState(seen, log, reports) == Run(cs, LoopState(SeenIdsOf(log0), log0, []), t)
  {
    seen := LoadSeenIds(log0);
    log, reports := log0, [];
    ghost var st0 := LoopState(seen, log, reports);
    var i := 0;
    while i < |cs|
      invariant 0 <= i <= |cs|
      invariant LoopState(seen, log, reports) == Run(cs[..i], st0, t)
    {
      var comment := cs[i];
      assert cs[..i + 1][..i] == cs[..i];
      var fullname := comment.fullname;
      if fullname !in seen {
        var rep := comment.score >= t.threshold;
        if rep {
          reports := reports + [fullname];
        }
        log := log + [ScanRowOf(comment, rep)];
        if rep {
          seen := seen + {fullname};
        }
      }
      i := i + 1;
    }
    assert cs[..i] == cs;
  }
}
