/**
 * How the two writers of the shared outcomes file (`report_outcomes.jsonl`
 * by default in both programs) and its three readers see each other's lines.
 * bot.py's `refresh_modlog` writes `action`/`outcome`/`ts`; modlog_refresh.py's
 * `_save_outcome` writes `status`/`raw_action`/`created_utc`.
 */
module OutcomeFormats {
  import opened Wrappers
  import opened Text
  import opened Records
  import BotModlog
  import ModlogRefresh
  import BotSummary

  /**
   * The two action vocabularies: every action bot.py keeps is classified the
   * same way by modlog_refresh.py, which additionally keeps the four spam and
   * generic removals as removals.
   */
  lemma VocabulariesAgree(action: string)
    ensures BotModlog.OutcomeOf(Lower(action)).Some? ==>
      ModlogRefresh.ClassifyStatus(action) == BotModlog.OutcomeOf(Lower(action))
    ensures ModlogRefresh.ClassifyStatus(action).Some? && BotModlog.OutcomeOf(Lower(action)).None?
      <==> Lower(action) in {"spamcomment", "spamlink", "moderator_remove", "remove"}
    ensures Lower(action) in {"spamcomment", "spamlink", "moderator_remove", "remove"} ==>
      ModlogRefresh.ClassifyStatus(action) == Some(Removed)
  {
  }

  /** A line bot.py's `refresh_modlog` writes gives `_read_seen_keys` no key: it has no `created_utc`. */
  lemma BotRowsInvisibleToModlogRefresh(ma: ModAction)
    requires BotModlog.Candidate(ma).Some?
    ensures ModlogRefresh.LineSeenKey(BotModlog.Candidate(ma).value).None?
  {
  }

  /**
   * A line `_save_outcome` writes gives `load_outcome_keys` no key (it has no
   * `action` or `outcome`), and the weekly summary reads an empty outcome off
   * it, which is neither a removal nor an approval.
   */
  lemma ModlogRefreshRowsInvisibleToBot(r: ModlogRefresh.OutcomeRecord)
    ensures BotModlog.LineKey(ModlogRefresh.ToLine(r)).None?
    ensures BotSummary.OutcomeText(ModlogRefresh.ToLine(r)) == ""
    ensures !BotSummary.IsRemovedText(BotSummary.OutcomeText(ModlogRefresh.ToLine(r)))
    ensures !BotSummary.IsApprovedText(BotSummary.OutcomeText(ModlogRefresh.ToLine(r)))
  {
  }

  /**
   * Hence an outcomes file filled only by modlog_refresh.py counts no
   * removal and no approval in the weekly summary, whatever the window.
   */
  lemma {:induction false} SummaryIgnoresModlogRefreshRows(rs: seq<ModlogRefresh.OutcomeRecord>, w: BotSummary.Window,
                                                           reported: set<string>)
    ensures BotSummary.RemovedTfns(ModlogRefresh.ToLines(rs), w, reported) == {}
    ensures BotSummary.ApprovedTfns(ModlogRefresh.ToLines(rs), w, reported) == {}
    decreases |rs|
  {
    if rs != [] {
      var init := rs[..|rs| - 1];
      var lines := ModlogRefresh.ToLines(rs);
      assert lines[..|lines| - 1] == ModlogRefresh.ToLines(init);
      ModlogRefreshRowsInvisibleToBot(rs[|rs| - 1]);
      SummaryIgnoresModlogRefreshRows(init, w, reported);
    }
  }

  /**
   * And the lines bot.py's `refresh_modlog` writes give `_read_seen_keys`
   * no keys.
   */
  lemma {:induction false} ModlogRefreshIgnoresBotRows(actions: seq<ModAction>, cutoff: real, existing: set<BotModlog.OutcomeKey>)
    ensures ModlogRefresh.SeenKeysOf(BotModlog.Harvest(actions, cutoff, existing)) == {}
    decreases |actions|
  {
    HarvestHasNoCreatedUtc(actions, cutoff, existing);
    NoCreatedUtcNoKeys(BotModlog.Harvest(actions, cutoff, existing));
  }

  /**
   * Whatever bot.py's `refresh_modlog` appends, `_read_seen_keys` reads the
   * same keys as before it ran.
   */
  lemma {:induction false} BotRefreshAddsNoSeenKeys(subs: seq<string>, logs: map<string, seq<ModAction>>, limit: nat,
                                                    cutoffs: seq<real>, file: seq<OutcomeLine>)
    requires |cutoffs| == |subs|
    ensures ModlogRefresh.SeenKeysOf(BotModlog.RefreshAll(subs, logs, limit, cutoffs, file)) == ModlogRefresh.SeenKeysOf(file)
    decreases |subs|
  {
    if subs != [] {
      var h := BotModlog.Harvest(BotModlog.SubLog(subs[0], logs, limit), cutoffs[0], BotModlog.OutcomeKeysOf(file));
      BotModlog.RefreshAllHead(subs, logs, limit, cutoffs, file);
      BotRefreshAddsNoSeenKeys(subs[1..], logs, limit, cutoffs[1..], file + h);
      ModlogRefresh.SeenKeysOfAppend(file, h);
      ModlogRefreshIgnoresBotRows(BotModlog.SubLog(subs[0], logs, limit), cutoffs[0], BotModlog.OutcomeKeysOf(file));
    }
  }

  /**
   * So modlog_refresh.py, run over a file bot.py has refreshed, records
   * exactly what it would have recorded before bot.py wrote anything: it
   * writes bot.py's decisions again in its own format.
   */
  lemma ModlogRefreshRescansBotRows(subs: seq<string>, logs: map<string, seq<ModAction>>, limit: nat,
                                    cutoffs: seq<real>, file: seq<OutcomeLine>, msubs: seq<string>, mlimit: int,
                                    cutoff: real)
    requires |cutoffs| == |subs|
    ensures var refreshed := BotModlog.RefreshAll(subs, logs, limit, cutoffs, file);
      ModlogRefresh.ScanAll(msubs, logs, mlimit, cutoff, ModlogRefresh.SeenKeysOf(refreshed))
        == ModlogRefresh.ScanAll(msubs, logs, mlimit, cutoff, ModlogRefresh.SeenKeysOf(file))
  {
    BotRefreshAddsNoSeenKeys(subs, logs, limit, cutoffs, file);
  }

  /** No line bot.py's `refresh_modlog` writes has a `created_utc`. */
  lemma {:induction false} HarvestHasNoCreatedUtc(actions: seq<ModAction>, cutoff: real, existing: set<BotModlog.OutcomeKey>)
    ensures forall i | 0 <= i < |BotModlog.Harvest(actions, cutoff, existing)| ::
      BotModlog.Harvest(actions, cutoff, existing)[i].createdUtc.None?
    decreases |actions|
  {
    if actions != [] && actions[0].createdUtc >= cutoff {
      var c := BotModlog.Candidate(actions[0]);
      BotModlog.HarvestStep(actions, cutoff, existing);
      if c.None? || BotModlog.WrittenKey(c.value) in existing {
        HarvestHasNoCreatedUtc(actions[1..], cutoff, existing);
      } else {
        var known := existing + {BotModlog.WrittenKey(c.value)};
        var rest := BotModlog.Harvest(actions[1..], cutoff, known);
        HarvestHasNoCreatedUtc(actions[1..], cutoff, known);
        assert c.value.createdUtc.None?;
        var rows := [c.value] + rest;
        assert forall i | 0 < i < |rows| :: rows[i] == rest[i - 1];
      }
    }
  }

  /** Lines that carry no `created_utc` give `_read_seen_keys` nothing. */
  lemma {:induction false} NoCreatedUtcNoKeys(lines: seq<OutcomeLine>)
    requires forall i | 0 <= i < |lines| :: lines[i].createdUtc.None?
    ensures ModlogRefresh.SeenKeysOf(lines) == {}
    decreases |lines|
  {
    if lines != [] {
      NoCreatedUtcNoKeys(lines[..|lines| - 1]);
    }
  }
}
