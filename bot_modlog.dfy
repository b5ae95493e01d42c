/**
 * The "Modlog outcomes" section of bot.py: harvesting approve/remove actions
 * from each subreddit's moderation log into the outcomes file, without writing
 * the same `(fullname, action, timestamp)` key twice.
 */
module BotModlog {
  import opened Wrappers
  import opened Text
  import opened Records
  import opened BotUtil

  /** The keys of `OUTCOME_ACTIONS`. */
  const OutcomeActionNames: set<string> := {"removecomment", "removelink", "approvelink", "approvecomment"}

  /** `OUTCOME_ACTIONS.get(action)`. */
  function OutcomeOf(action: string): (r: Option<Status>)
    ensures r.Some? <==> action in OutcomeActionNames
    ensures r == Some(Removed) <==> action == "removecomment" || action == "removelink"
    ensures r == Some(Approved) <==> action == "approvecomment" || action == "approvelink"
  {
    if action == "removecomment" || action == "removelink" then Some(Removed)
    else if action == "approvelink" || action == "approvecomment" then Some(Approved)
    else None
  }

  /** The dedup key of the bot's outcomes file. */
  datatype OutcomeKey = OutcomeKey(targetFullname: string, action: string, ts: int)

  /** The key `load_outcome_keys` reads off one line, if the line has all three parts. */
  function LineKey(line: OutcomeLine): (k: Option<OutcomeKey>)
    ensures k.Some? ==> k.value.targetFullname != "" && k.value.action != "" && k.value.ts != 0
  {
    var tfn := Or(line.targetFullname, line.id);
    var action := Or(line.action, line.outcome);
    var ts := Trunc(OrReal(line.ts, line.createdUtc).GetOr(0.0));
    if !Present(tfn) || !Present(action) || ts == 0 then None
    else Some(OutcomeKey(NormalizeFullname("comment", tfn.value), action.value, ts))
  }

  /** The set `load_outcome_keys` builds from the lines of the outcomes file. */
  function OutcomeKeysOf(lines: seq<OutcomeLine>): set<OutcomeKey>
    decreases |lines|
  {
    if lines == [] then {}
    else
      var k := LineKey(lines[|lines| - 1]);
      OutcomeKeysOf(lines[..|lines| - 1]) + (if k.Some? then {k.value} else {})
  }

  lemma {:induction false} OutcomeKeysOfAppend(a: seq<OutcomeLine>, b: seq<OutcomeLine>)
    ensures OutcomeKeysOf(a + b) == OutcomeKeysOf(a) + OutcomeKeysOf(b)
    decreases |b|
  {
    if b == [] {
      assert a + b == a;
    } else {
      assert (a + b)[..|a + b| - 1] == a + b[..|b| - 1];
      OutcomeKeysOfAppend(a, b[..|b| - 1]);
    }
  }

  /** `load_outcome_keys`: the keys of every line that has a fullname, an action and a non-zero time. */
  method LoadOutcomeKeys(lines: seq<OutcomeLine>) returns (keys: set<OutcomeKey>)
    ensures keys == OutcomeKeysOf(lines)
    ensures forall k | k in keys :: HasKindPrefix(k.targetFullname) && k.action != "" && k.ts != 0
  {
    keys := {};
    var i := 0;
    while i < |lines|
      invariant 0 <= i <= |lines|
      invariant keys == OutcomeKeysOf(lines[..i])
      invariant forall k | k in keys :: HasKindPrefix(k.targetFullname) && k.action != "" && k.ts != 0
    {
      var row := lines[i];
      var tfn := Or(row.targetFullname, row.id);
      var action := Or(row.action, row.outcome);
      var ts := Trunc(OrReal(row.ts, row.createdUtc).GetOr(0.0));
      if Present(tfn) && Present(action) && ts != 0 {
        keys := keys + {OutcomeKey(NormalizeFullname("comment", tfn.value), action.value, ts)};
      }
      assert lines[..i + 1][..i] == lines[..i];
      i := i + 1;
    }
    assert lines[..i] == lines;
  }

  /** `mod and mod.name`. */
  function ModName(m: Option<Moderator>): Option<string> {
    if m.Some? then m.value.name else None
  }

  /** The row `refresh_modlog` writes for an action it keeps. */
  function OutcomeRow(ma: ModAction, action: string, outcome: Status, tfn: string): OutcomeLine {
    OutcomeLine(
      targetFullname := Some(tfn), id := None,
      action := Some(action), outcome := Some(outcome.Text()),
      status := None, rawAction := None,
      ts := Some(Trunc(ma.createdUtc) as real), createdUtc := None,
      subreddit := Some(SubNameLower(ma.subreddit)), mod := ModName(ma.mod))
  }

  /** The key a written row was deduplicated under. */
  function WrittenKey(line: OutcomeLine): OutcomeKey {
    OutcomeKey(line.targetFullname.GetOr(""), line.action.GetOr(""), Trunc(line.ts.GetOr(0.0)))
  }

  /** A row as `refresh_modlog` writes it: a harvested action, its outcome, a fullname. */
  predicate IsOutcomeRow(line: OutcomeLine) {
    && line.action.Some? && line.action.value in OutcomeActionNames
    && line.outcome == Some(OutcomeOf(line.action.value).value.Text())
    && line.targetFullname.Some? && HasKindPrefix(line.targetFullname.value)
    && line.ts.Some? && line.ts.value == Trunc(line.ts.value) as real
  }

  /** The fullname `refresh_modlog` files an action under, when the action is one it keeps. */
  function TargetOf(ma: ModAction): string {
    var raw := ma.targetFullname.GetOr("");
    NormalizeFullname(if StartsWith(raw, "t1_") then "comment" else "submission", raw)
  }

  /** The row for one action, or `None` when the action is skipped whatever the keys already seen. */
  function Candidate(ma: ModAction): (c: Option<OutcomeLine>)
    ensures c.Some? <==> Lower(ma.action) in OutcomeActionNames && ma.targetFullname.GetOr("") != ""
    ensures c.Some? ==> IsOutcomeRow(c.value)
    ensures c.Some? ==> c.value.action == Some(Lower(ma.action))
    ensures c.Some? ==> WrittenKey(c.value) == OutcomeKey(TargetOf(ma), Lower(ma.action), Trunc(ma.createdUtc))
  {
    var action := Lower(ma.action);
    var outcome := OutcomeOf(action);
    if outcome.None? || ma.targetFullname.GetOr("") == "" then None
    else
      TruncOfInt(Trunc(ma.createdUtc));
      Some(OutcomeRow(ma, action, outcome.value, TargetOf(ma)))
  }

  /** The keys of a sequence of written rows. */
  function KeysOf(lines: seq<OutcomeLine>): set<OutcomeKey> {
    set i | 0 <= i < |lines| :: WrittenKey(lines[i])
  }

  /**
   * The rows the scan of one subreddit appends, newest action first: it stops
   * at the first action older than `cutoff` and skips any action whose key is
   * already known, remembering every key it writes.
   */
  function Harvest(actions: seq<ModAction>, cutoff: real, existing: set<OutcomeKey>): (rows: seq<OutcomeLine>)
    ensures |rows| <= |actions|
    decreases |actions|
  {
    if actions == [] || actions[0].createdUtc < cutoff then []
    else
      var c := Candidate(actions[0]);
      if c.None? || WrittenKey(c.value) in existing then Harvest(actions[1..], cutoff, existing)
      else [c.value] + Harvest(actions[1..], cutoff, existing + {WrittenKey(c.value)})
  }

  /** Every row is an approve/remove row for a fullname, under a key not in `known`. */
  ghost predicate RowsFresh(rows: seq<OutcomeLine>, known: set<OutcomeKey>) {
    forall i | 0 <= i < |rows| :: IsOutcomeRow(rows[i]) && WrittenKey(rows[i]) !in known
  }

  /** No two rows share a key. */
  ghost predicate KeysDistinct(rows: seq<OutcomeLine>) {
    forall i, j | 0 <= i < j < |rows| :: WrittenKey(rows[i]) != WrittenKey(rows[j])
  }

  /** Every row's timestamp is at least `ts`. */
  ghost predicate NotBefore(rows: seq<OutcomeLine>, ts: int) {
    forall i | 0 <= i < |rows| :: ts <= WrittenKey(rows[i]).ts
  }

  /**
   * Every row the scan appends is an approve/remove row for a fullname, no
   * older than the cutoff, under a key that was not known before and that no
   * other appended row shares.
   */
  lemma {:induction false} HarvestWritesFreshRows(actions: seq<ModAction>, cutoff: real, existing: set<OutcomeKey>)
    ensures var rows := Harvest(actions, cutoff, existing);
      RowsFresh(rows, existing) && KeysDistinct(rows) && NotBefore(rows, Trunc(cutoff))
    decreases |actions|
  {
    var rows := Harvest(actions, cutoff, existing);
    if actions != [] && actions[0].createdUtc >= cutoff {
      var c := Candidate(actions[0]);
      var rest := actions[1..];
      HarvestStep(actions, cutoff, existing);
      if c.None? || WrittenKey(c.value) in existing {
        HarvestWritesFreshRows(rest, cutoff, existing);
      } else {
        var k := WrittenKey(c.value);
        TruncMonotone(cutoff, actions[0].createdUtc);
        HarvestWritesFreshRows(rest, cutoff, existing + {k});
        FreshCons(c.value, Harvest(rest, cutoff, existing + {k}), existing, Trunc(cutoff));
      }
    }
  }

  /** A fresh row in front of rows that are fresh even with its key known. */
  lemma FreshCons(row: OutcomeLine, tail: seq<OutcomeLine>, known: set<OutcomeKey>, ts: int)
    requires IsOutcomeRow(row) && WrittenKey(row) !in known && ts <= WrittenKey(row).ts
    requires RowsFresh(tail, known + {WrittenKey(row)}) && KeysDistinct(tail) && NotBefore(tail, ts)
    ensures var rows := [row] + tail;
      RowsFresh(rows, known) && KeysDistinct(rows) && NotBefore(rows, ts)
  {
    var rows := [row] + tail;
    assert rows[0] == row;
    assert forall i | 0 < i < |rows| :: rows[i] == tail[i - 1];
    forall i, j | 0 <= i < j < |rows| ensures WrittenKey(rows[i]) != WrittenKey(rows[j]) {
      assert rows[j] == tail[j - 1];
      if i > 0 { assert rows[i] == tail[i - 1]; }
    }
  }

  /** With a cutoff of at least one second, the appended rows read back as their own keys. */
  lemma HarvestReadsBack(actions: seq<ModAction>, cutoff: real, existing: set<OutcomeKey>)
    requires cutoff >= 1.0
    ensures var rows := Harvest(actions, cutoff, existing);
      OutcomeKeysOf(rows) == KeysOf(rows) && RowsFresh(rows, existing) && KeysDistinct(rows)
  {
    var rows := Harvest(actions, cutoff, existing);
    TruncAtLeastOne(cutoff);
    HarvestWritesFreshRows(actions, cutoff, existing);
    assert forall i | 0 <= i < |rows| :: WrittenKey(rows[i]).ts >= 1;
    KeysReadBack(rows);
  }

  lemma TruncMonotone(x: real, y: real)
    requires x <= y
    ensures Trunc(x) <= Trunc(y)
  {
  }

  /** A written row reads back, through `load_outcome_keys`, as the key it was written under. */
  lemma RowReadsBack(line: OutcomeLine)
    requires IsOutcomeRow(line) && WrittenKey(line).ts != 0
    ensures LineKey(line) == Some(WrittenKey(line))
  {
    TruncOfInt(Trunc(line.ts.value));
  }

  lemma {:induction false} KeysReadBack(lines: seq<OutcomeLine>)
    requires forall i | 0 <= i < |lines| :: IsOutcomeRow(lines[i]) && WrittenKey(lines[i]).ts != 0
    ensures OutcomeKeysOf(lines) == KeysOf(lines)
    decreases |lines|
  {
    if lines != [] {
      var init := lines[..|lines| - 1];
      var last := lines[|lines| - 1];
      assert forall i | 0 <= i < |init| :: init[i] == lines[i];
      KeysReadBack(init);
      RowReadsBack(last);
      SplitLast(lines);
      KeysOfSnoc(init, last);
    }
  }

  lemma KeysOfSnoc(rows: seq<OutcomeLine>, row: OutcomeLine)
    ensures KeysOf(rows + [row]) == KeysOf(rows) + {WrittenKey(row)}
  {
    var all := rows + [row];
    forall k | k in KeysOf(rows) ensures k in KeysOf(all) {
      var i :| 0 <= i < |rows| && WrittenKey(rows[i]) == k;
      assert all[i] == rows[i];
    }
    assert all[|rows|] == row;
  }

  /**
   * Once every key the scan would write is known, the same scan writes
   * nothing, also when it starts from a later cutoff.
   */
  lemma {:induction false} HarvestSaturated(actions: seq<ModAction>, cutoff: real, later: real,
                                            existing: set<OutcomeKey>, known: set<OutcomeKey>)
    requires cutoff <= later
    requires existing + KeysOf(Harvest(actions, cutoff, existing)) <= known
    ensures Harvest(actions, later, known) == []
    decreases |actions|
  {
    if actions != [] && actions[0].createdUtc >= later {
      var c := Candidate(actions[0]);
      var rest := actions[1..];
      HarvestStep(actions, cutoff, existing);
      HarvestStep(actions, later, known);
      if c.None? || WrittenKey(c.value) in existing {
        HarvestSaturated(rest, cutoff, later, existing, known);
      } else {
        var e' := existing + {WrittenKey(c.value)};
        KeysOfCons(c.value, Harvest(rest, cutoff, e'));
        HarvestSaturated(rest, cutoff, later, e', known);
      }
    }
  }

  lemma KeysOfCons(row: OutcomeLine, rows: seq<OutcomeLine>)
    ensures KeysOf([row] + rows) == {WrittenKey(row)} + KeysOf(rows)
  {
    var all := [row] + rows;
    forall k | k in KeysOf(rows) ensures k in KeysOf(all) {
      var i :| 0 <= i < |rows| && WrittenKey(rows[i]) == k;
      assert all[i + 1] == rows[i];
    }
    assert all[0] == row;
  }

  /** The part of a subreddit's log that `mod.log(limit=...)` yields; a subreddit whose log cannot be read yields nothing. */
  function SubLog(sub: string, logs: map<string, seq<ModAction>>, limit: nat): seq<ModAction> {
    if sub in logs then Take(logs[sub], limit) else []
  }

  /**
   * The outcomes file after `refresh_modlog` has scanned `subs` in order,
   * reloading the keys before each; `cutoffs[i]` is the cutoff computed for
   * `subs[i]` from the clock reading taken when its scan starts.
   */
  function RefreshAll(subs: seq<string>, logs: map<string, seq<ModAction>>, limit: nat, cutoffs: seq<real>,
                      file: seq<OutcomeLine>): (out: seq<OutcomeLine>)
    requires |cutoffs| == |subs|
    ensures |file| <= |out| && out[..|file|] == file
    decreases |subs|
  {
    if subs == [] then file
    else
      var next := file + Harvest(SubLog(subs[0], logs, limit), cutoffs[0], OutcomeKeysOf(file));
      var out := RefreshAll(subs[1..], logs, limit, cutoffs[1..], next);
      assert out[..|next|][..|file|] == out[..|file|];
      out
  }

  /** Every cutoff is at least one second after the epoch. */
  ghost predicate AllAtLeastOne(cutoffs: seq<real>) {
    forall i | 0 <= i < |cutoffs| :: cutoffs[i] >= 1.0
  }

  /** `later` holds, subreddit by subreddit, cutoffs no earlier than those of `cutoffs`. */
  ghost predicate NoEarlier(cutoffs: seq<real>, later: seq<real>) {
    |later| == |cutoffs| && forall i | 0 <= i < |cutoffs| :: cutoffs[i] <= later[i]
  }

  lemma AllAtLeastOneTail(cutoffs: seq<real>)
    requires cutoffs != [] && AllAtLeastOne(cutoffs)
    ensures cutoffs[0] >= 1.0 && AllAtLeastOne(cutoffs[1..])
  {
    assert forall i | 0 <= i < |cutoffs| - 1 :: cutoffs[1..][i] == cutoffs[i + 1];
  }

  /**
   * No key is written twice: the appended rows have pairwise distinct keys,
   * none of them already in the file.
   */
  lemma {:induction false} RefreshAllFresh(subs: seq<string>, logs: map<string, seq<ModAction>>, limit: nat,
                                           cutoffs: seq<real>, file: seq<OutcomeLine>)
    requires |cutoffs| == |subs| && AllAtLeastOne(cutoffs)
    ensures var added := RefreshAll(subs, logs, limit, cutoffs, file)[|file|..];
      RowsFresh(added, OutcomeKeysOf(file)) && KeysDistinct(added)
    decreases |subs|
  {
    if subs != [] {
      AllAtLeastOneTail(cutoffs);
      var h := Harvest(SubLog(subs[0], logs, limit), cutoffs[0], OutcomeKeysOf(file));
      var next := file + h;
      HarvestReadsBack(SubLog(subs[0], logs, limit), cutoffs[0], OutcomeKeysOf(file));
      OutcomeKeysOfAppend(file, h);
      RefreshAllFresh(subs[1..], logs, limit, cutoffs[1..], next);
      var later := RefreshAllUnfold(subs, logs, limit, cutoffs, file);
      FreshConcat(h, later, OutcomeKeysOf(file), KeysOf(h));
    }
  }

  /** The rows a refresh appends are the first subreddit's harvest followed by what the rest append. */
  lemma RefreshAllUnfold(subs: seq<string>, logs: map<string, seq<ModAction>>, limit: nat,
                         cutoffs: seq<real>, file: seq<OutcomeLine>) returns (later: seq<OutcomeLine>)
    requires subs != [] && |cutoffs| == |subs|
    ensures var h := Harvest(SubLog(subs[0], logs, limit), cutoffs[0], OutcomeKeysOf(file));
      && later == RefreshAll(subs[1..], logs, limit, cutoffs[1..], file + h)[|file + h|..]
      && RefreshAll(subs, logs, limit, cutoffs, file)[|file|..] == h + later
  {
    var h := Harvest(SubLog(subs[0], logs, limit), cutoffs[0], OutcomeKeysOf(file));
    var next := file + h;
    var out := RefreshAll(subs[1..], logs, limit, cutoffs[1..], next);
    later := out[|next|..];
    assert RefreshAll(subs, logs, limit, cutoffs, file) == out;
    SliceAfterPrefix(out, file, h);
  }

  lemma FreshConcat(h: seq<OutcomeLine>, later: seq<OutcomeLine>, known: set<OutcomeKey>, hk: set<OutcomeKey>)
    requires hk == KeysOf(h)
    requires RowsFresh(h, known) && KeysDistinct(h)
    requires RowsFresh(later, known + hk) && KeysDistinct(later)
    ensures RowsFresh(h + later, known) && KeysDistinct(h + later)
  {
    var added := h + later;
    forall i | 0 <= i < |added| ensures IsOutcomeRow(added[i]) && WrittenKey(added[i]) !in known {
      if i >= |h| { assert added[i] == later[i - |h|]; } else { assert added[i] == h[i]; }
    }
    forall i, j | 0 <= i < j < |added| ensures WrittenKey(added[i]) != WrittenKey(added[j]) {
      if j >= |h| {
        assert added[j] == later[j - |h|];
        if i < |h| {
          assert added[i] == h[i];
          assert WrittenKey(h[i]) in hk;
        } else {
          assert added[i] == later[i - |h|];
        }
      } else {
        assert added[i] == h[i] && added[j] == h[j];
      }
    }
  }

  /** The refresh never loses a key the file already had. */
  lemma RefreshAllKeepsKeys(subs: seq<string>, logs: map<string, seq<ModAction>>, limit: nat, cutoffs: seq<real>,
                            file: seq<OutcomeLine>)
    requires |cutoffs| == |subs|
    ensures OutcomeKeysOf(file) <= OutcomeKeysOf(RefreshAll(subs, logs, limit, cutoffs, file))
  {
    var out := RefreshAll(subs, logs, limit, cutoffs, file);
    PrefixRest(out, file);
    OutcomeKeysOfAppend(file, out[|file|..]);
  }

  /** Action `j` is one the scan keeps, and neither it nor any action before it is older than the cutoff. */
  ghost predicate KeptInWindow(actions: seq<ModAction>, cutoff: real, j: nat) {
    j < |actions| && (forall k | 0 <= k <= j :: actions[k].createdUtc >= cutoff) && Candidate(actions[j]).Some?
  }

  /** After one subreddit's scan, the key of every kept action up to its first older one is in the file. */
  lemma HarvestRecordsInFile(actions: seq<ModAction>, cutoff: real, file: seq<OutcomeLine>, j: nat)
    requires cutoff >= 1.0 && j < |actions| && forall k | 0 <= k <= j :: actions[k].createdUtc >= cutoff
    requires Candidate(actions[j]).Some?
    ensures WrittenKey(Candidate(actions[j]).value)
         in OutcomeKeysOf(file + Harvest(actions, cutoff, OutcomeKeysOf(file)))
  {
    var h := Harvest(actions, cutoff, OutcomeKeysOf(file));
    HarvestRecordsAll(actions, cutoff, OutcomeKeysOf(file), j);
    HarvestReadsBack(actions, cutoff, OutcomeKeysOf(file));
    OutcomeKeysOfAppend(file, h);
  }

  /**
   * After the refresh, with every cutoff at least one second after the
   * epoch, the key of every kept action of any subreddit, up to that
   * subreddit's first older action, is in the file.
   */
  lemma {:induction false} RefreshAllRecordsAll(subs: seq<string>, logs: map<string, seq<ModAction>>, limit: nat,
                                                cutoffs: seq<real>, file: seq<OutcomeLine>, i: nat, j: nat)
    requires |cutoffs| == |subs| && AllAtLeastOne(cutoffs) && i < |subs|
    requires KeptInWindow(SubLog(subs[i], logs, limit), cutoffs[i], j)
    ensures WrittenKey(Candidate(SubLog(subs[i], logs, limit)[j]).value)
         in OutcomeKeysOf(RefreshAll(subs, logs, limit, cutoffs, file))
    decreases |subs|
  {
    AllAtLeastOneTail(cutoffs);
    if i == 0 {
      FirstRecorded(subs, logs, limit, cutoffs, file, j);
    } else {
      var h := Harvest(SubLog(subs[0], logs, limit), cutoffs[0], OutcomeKeysOf(file));
      KeptInTail(subs, logs, limit, cutoffs, i, j);
      RefreshAllRecordsAll(subs[1..], logs, limit, cutoffs[1..], file + h, i - 1, j);
      RefreshAllHead(subs, logs, limit, cutoffs, file);
    }
  }

  /** The first subreddit's kept actions are in the refreshed file. */
  lemma FirstRecorded(subs: seq<string>, logs: map<string, seq<ModAction>>, limit: nat, cutoffs: seq<real>,
                      file: seq<OutcomeLine>, j: nat)
    requires subs != [] && |cutoffs| == |subs| && cutoffs[0] >= 1.0
    requires KeptInWindow(SubLog(subs[0], logs, limit), cutoffs[0], j)
    ensures WrittenKey(Candidate(SubLog(subs[0], logs, limit)[j]).value)
         in OutcomeKeysOf(RefreshAll(subs, logs, limit, cutoffs, file))
  {
    var h := Harvest(SubLog(subs[0], logs, limit), cutoffs[0], OutcomeKeysOf(file));
    HarvestRecordsInFile(SubLog(subs[0], logs, limit), cutoffs[0], file, j);
    RefreshAllKeepsKeys(subs[1..], logs, limit, cutoffs[1..], file + h);
    RefreshAllHead(subs, logs, limit, cutoffs, file);
  }

  lemma KeptInTail(subs: seq<string>, logs: map<string, seq<ModAction>>, limit: nat, cutoffs: seq<real>, i: nat, j: nat)
    requires 0 < i < |subs| && |cutoffs| == |subs| && KeptInWindow(SubLog(subs[i], logs, limit), cutoffs[i], j)
    ensures KeptInWindow(SubLog(subs[1..][i - 1], logs, limit), cutoffs[1..][i - 1], j)
    ensures SubLog(subs[1..][i - 1], logs, limit) == SubLog(subs[i], logs, limit)
  {
    assert subs[1..][i - 1] == subs[i] && cutoffs[1..][i - 1] == cutoffs[i];
  }

  /**
   * With every key of the refreshed file known, no subreddit's scan writes
   * anything, even from a cutoff no earlier than the one it was refreshed with.
   */
  lemma {:induction false} RefreshAllSaturates(subs: seq<string>, logs: map<string, seq<ModAction>>, limit: nat,
                                               cutoffs: seq<real>, later: seq<real>, file: seq<OutcomeLine>,
                                               known: set<OutcomeKey>)
    requires |cutoffs| == |subs| && AllAtLeastOne(cutoffs) && NoEarlier(cutoffs, later)
    requires OutcomeKeysOf(RefreshAll(subs, logs, limit, cutoffs, file)) <= known
    ensures forall i | 0 <= i < |subs| :: Harvest(SubLog(subs[i], logs, limit), later[i], known) == []
    decreases |subs|
  {
    if subs != [] {
      AllAtLeastOneTail(cutoffs);
      NoEarlierTail(cutoffs, later);
      var h := Harvest(SubLog(subs[0], logs, limit), cutoffs[0], OutcomeKeysOf(file));
      SaturatedHead(subs, logs, limit, cutoffs, later[0], file, known);
      RefreshAllSaturates(subs[1..], logs, limit, cutoffs[1..], later[1..], file + h, known);
      NothingNewCons(subs, logs, limit, later, known);
    }
  }

  lemma NoEarlierTail(cutoffs: seq<real>, later: seq<real>)
    requires cutoffs != [] && NoEarlier(cutoffs, later)
    ensures cutoffs[0] <= later[0] && NoEarlier(cutoffs[1..], later[1..])
  {
    assert forall i | 0 <= i < |cutoffs| - 1 :: cutoffs[1..][i] == cutoffs[i + 1] && later[1..][i] == later[i + 1];
  }

  /**
   * The first subreddit's keys are known, so its scan from a later cutoff
   * writes nothing, and the keys of what the others refresh are known too.
   */
  lemma SaturatedHead(subs: seq<string>, logs: map<string, seq<ModAction>>, limit: nat, cutoffs: seq<real>,
                      later: real, file: seq<OutcomeLine>, known: set<OutcomeKey>)
    requires subs != [] && |cutoffs| == |subs| && 1.0 <= cutoffs[0] <= later
    requires OutcomeKeysOf(RefreshAll(subs, logs, limit, cutoffs, file)) <= known
    ensures Harvest(SubLog(subs[0], logs, limit), later, known) == []
    ensures var h := Harvest(SubLog(subs[0], logs, limit), cutoffs[0], OutcomeKeysOf(file));
      OutcomeKeysOf(RefreshAll(subs[1..], logs, limit, cutoffs[1..], file + h)) <= known
  {
    var log := SubLog(subs[0], logs, limit);
    var h := Harvest(log, cutoffs[0], OutcomeKeysOf(file));
    var next := file + h;
    var out := RefreshAll(subs[1..], logs, limit, cutoffs[1..], next);
    RefreshAllHead(subs, logs, limit, cutoffs, file);
    HarvestReadsBack(log, cutoffs[0], OutcomeKeysOf(file));
    OutcomeKeysOfAppend(file, h);
    PrefixRest(out, next);
    OutcomeKeysOfAppend(next, out[|next|..]);
    HarvestSaturated(log, cutoffs[0], later, OutcomeKeysOf(file), known);
  }

  lemma NothingNewCons(subs: seq<string>, logs: map<string, seq<ModAction>>, limit: nat, later: seq<real>,
                       known: set<OutcomeKey>)
    requires subs != [] && |later| == |subs|
    requires Harvest(SubLog(subs[0], logs, limit), later[0], known) == []
    requires forall i | 0 <= i < |subs| - 1 :: Harvest(SubLog(subs[1..][i], logs, limit), later[1..][i], known) == []
    ensures forall i | 0 <= i < |subs| :: Harvest(SubLog(subs[i], logs, limit), later[i], known) == []
  {
    forall i | 0 < i < |subs| ensures Harvest(SubLog(subs[i], logs, limit), later[i], known) == [] {
      assert subs[i] == subs[1..][i - 1] && later[i] == later[1..][i - 1];
    }
  }

  lemma {:induction false} RefreshAllNoop(subs: seq<string>, logs: map<string, seq<ModAction>>, limit: nat,
                                          cutoffs: seq<real>, file: seq<OutcomeLine>)
    requires |cutoffs| == |subs|
    requires forall i | 0 <= i < |subs| :: Harvest(SubLog(subs[i], logs, limit), cutoffs[i], OutcomeKeysOf(file)) == []
    ensures RefreshAll(subs, logs, limit, cutoffs, file) == file
    decreases |subs|
  {
    if subs != [] {
      assert file + [] == file;
      forall i | 0 <= i < |subs| - 1
        ensures Harvest(SubLog(subs[1..][i], logs, limit), cutoffs[1..][i], OutcomeKeysOf(file)) == []
      {
        assert subs[1..][i] == subs[i + 1] && cutoffs[1..][i] == cutoffs[i + 1];
      }
      RefreshAllNoop(subs[1..], logs, limit, cutoffs[1..], file);
    }
  }

  /**
   * Running the refresh a second time over the same moderation logs appends
   * nothing, although the second run reads a later clock.
   */
  lemma RefreshRerunWritesNothing(subs: seq<string>, logs: map<string, seq<ModAction>>, limit: nat,
                                  cutoffs: seq<real>, later: seq<real>, file: seq<OutcomeLine>)
    requires |cutoffs| == |subs| && AllAtLeastOne(cutoffs) && NoEarlier(cutoffs, later)
    ensures var once := RefreshAll(subs, logs, limit, cutoffs, file);
      RefreshAll(subs, logs, limit, later, once) == once
  {
    var once := RefreshAll(subs, logs, limit, cutoffs, file);
    RefreshAllSaturates(subs, logs, limit, cutoffs, later, file, OutcomeKeysOf(once));
    RefreshAllNoop(subs, logs, limit, later, once);
  }

  /** One step of the scan, for an action that is not past the cutoff. */
  lemma HarvestStep(actions: seq<ModAction>, cutoff: real, existing: set<OutcomeKey>)
    requires actions != [] && actions[0].createdUtc >= cutoff
    ensures var c := Candidate(actions[0]);
      Harvest(actions, cutoff, existing) ==
        if c.None? || WrittenKey(c.value) in existing then Harvest(actions[1..], cutoff, existing)
        else [c.value] + Harvest(actions[1..], cutoff, existing + {WrittenKey(c.value)})
  {
  }

  /**
   * The scan stops at the first action older than the cutoff: an older action
   * at position `k` hides everything after it.
   */
  lemma {:induction false} HarvestStopsAtCutoff(actions: seq<ModAction>, cutoff: real, existing: set<OutcomeKey>, k: nat)
    requires k < |actions| && actions[k].createdUtc < cutoff
    ensures Harvest(actions, cutoff, existing) == Harvest(actions[..k], cutoff, existing)
    decreases k
  {
    if k > 0 && actions[0].createdUtc >= cutoff {
      var pre := actions[..k];
      assert pre[0] == actions[0] && pre[1..] == actions[1..][..k - 1];
      HarvestStep(actions, cutoff, existing);
      HarvestStep(pre, cutoff, existing);
      var c := Candidate(actions[0]);
      if c.None? || WrittenKey(c.value) in existing {
        HarvestStopsAtCutoff(actions[1..], cutoff, existing, k - 1);
      } else {
        HarvestStopsAtCutoff(actions[1..], cutoff, existing + {WrittenKey(c.value)}, k - 1);
      }
    }
  }

  /**
   * Nothing the scan should keep is lost: the key of every kept action up to
   * the first older one is afterwards known, either from before or because
   * the scan wrote it.
   */
  lemma {:induction false} HarvestRecordsAll(actions: seq<ModAction>, cutoff: real, existing: set<OutcomeKey>, j: nat)
    requires j < |actions| && forall i | 0 <= i <= j :: actions[i].createdUtc >= cutoff
    requires Candidate(actions[j]).Some?
    ensures WrittenKey(Candidate(actions[j]).value) in existing + KeysOf(Harvest(actions, cutoff, existing))
    decreases j
  {
    var target := WrittenKey(Candidate(actions[j]).value);
    var c := Candidate(actions[0]);
    var rest := actions[1..];
    if j > 0 {
      assert rest[j - 1] == actions[j];
      assert forall i | 0 <= i <= j - 1 :: rest[i].createdUtc >= cutoff by {
        assert forall i | 0 <= i <= j - 1 :: rest[i] == actions[i + 1];
      }
    }
    HarvestStep(actions, cutoff, existing);
    if c.None? || WrittenKey(c.value) in existing {
      assert Harvest(actions, cutoff, existing) == Harvest(rest, cutoff, existing);
      if j > 0 {
        HarvestRecordsAll(rest, cutoff, existing, j - 1);
      }
    } else {
      var k := WrittenKey(c.value);
      var later := Harvest(rest, cutoff, existing + {k});
      assert Harvest(actions, cutoff, existing) == [c.value] + later;
      KeysOfCons(c.value, later);
      if j > 0 {
        HarvestRecordsAll(rest, cutoff, existing + {k}, j - 1);
        assert target in existing + {k} + KeysOf(later);
      } else {
        assert target == k;
      }
    }
  }

  /** After `i` actions, `out` followed by the harvest of the rest is the final file `target`. */
  ghost predicate HarvestTracks(actions: seq<ModAction>, i: nat, cutoff: real, existing: set<OutcomeKey>,
                                out: seq<OutcomeLine>, target: seq<OutcomeLine>)
    requires i <= |actions|
  {
    out + Harvest(actions[i..], cutoff, existing) == target
  }

  lemma HarvestTracksSkip(actions: seq<ModAction>, i: nat, cutoff: real, existing: set<OutcomeKey>,
                          out: seq<OutcomeLine>, target: seq<OutcomeLine>)
    requires i < |actions| && HarvestTracks(actions, i, cutoff, existing, out, target)
    requires actions[i].createdUtc >= cutoff
    requires Candidate(actions[i]).None? || WrittenKey(Candidate(actions[i]).value) in existing
    ensures HarvestTracks(actions, i + 1, cutoff, existing, out, target)
  {
    assert actions[i..][1..] == actions[i + 1..];
    HarvestStep(actions[i..], cutoff, existing);
  }

  lemma HarvestTracksAdd(actions: seq<ModAction>, i: nat, cutoff: real, existing: set<OutcomeKey>,
                         out: seq<OutcomeLine>, target: seq<OutcomeLine>, row: OutcomeLine)
    requires i < |actions| && HarvestTracks(actions, i, cutoff, existing, out, target)
    requires actions[i].createdUtc >= cutoff
    requires Candidate(actions[i]) == Some(row) && WrittenKey(row) !in existing
    ensures HarvestTracks(actions, i + 1, cutoff, existing + {WrittenKey(row)}, out + [row], target)
  {
    assert actions[i..][1..] == actions[i + 1..];
    HarvestStep(actions[i..], cutoff, existing);
    AppendAssoc(out, [row], Harvest(actions[i + 1..], cutoff, existing + {WrittenKey(row)}));
  }

  lemma HarvestTracksStop(actions: seq<ModAction>, i: nat, cutoff: real, existing: set<OutcomeKey>,
                          out: seq<OutcomeLine>, target: seq<OutcomeLine>)
    requires i <= |actions| && HarvestTracks(actions, i, cutoff, existing, out, target)
    requires i == |actions| || actions[i].createdUtc < cutoff
    ensures out == target
  {
    assert out + [] == out;
  }

  /** The scan of one subreddit: reload the keys, then walk the log newest first. */
  method RefreshSub(actions: seq<ModAction>, cutoff: real, file: seq<OutcomeLine>)
    returns (out: seq<OutcomeLine>, countNew: nat)
    ensures out == file + Harvest(actions, cutoff, OutcomeKeysOf(file))
    ensures countNew == |out| - |file|
  {
    var existing := LoadOutcomeKeys(file);
    ghost var target := file + Harvest(actions, cutoff, existing);
    out := file;
    countNew := 0;
    var i := 0;
    assert actions[0..] == actions;
    while i < |actions|
      invariant 0 <= i <= |actions|
      invariant HarvestTracks(actions, i, cutoff, existing, out, target)
      invariant |out| == |file| + countNew
    {
      var ma := actions[i];
      var created := ma.createdUtc;
      if created < cutoff {
        break;
      }
      var action := Lower(ma.action);
      var outcome := OutcomeOf(action);
      if outcome.None? {
        assert Candidate(ma).None?;
        HarvestTracksSkip(actions, i, cutoff, existing, out, target);
        i := i + 1;
        continue;
      }
      var tfn := ma.targetFullname.GetOr("");
      if tfn == "" {
        assert Candidate(ma).None?;
        HarvestTracksSkip(actions, i, cutoff, existing, out, target);
        i := i + 1;
        continue;
      }
      tfn := NormalizeFullname(if StartsWith(tfn, "t1_") then "comment" else "submission", tfn);
      var key := OutcomeKey(tfn, action, Trunc(created));
      var row := OutcomeRow(ma, action, outcome.value, tfn);
      TruncOfInt(Trunc(created));
      assert Candidate(ma) == Some(row) && WrittenKey(row) == key;
      if key in existing {
        HarvestTracksSkip(actions, i, cutoff, existing, out, target);
        i := i + 1;
        continue;
      }
      HarvestTracksAdd(actions, i, cutoff, existing, out, target, row);
      out := out + [row];
      existing := existing + {key};
      countNew := countNew + 1;
      i := i + 1;
    }
    HarvestTracksStop(actions, i, cutoff, existing, out, target);
  }

  /** One pass of the loop over the subreddits keeps the file in step with the fold. */
  lemma RefreshAdvance(subs: seq<string>, i: nat, logs: map<string, seq<ModAction>>, limit: nat, cutoffs: seq<real>,
                       file: seq<OutcomeLine>, out: seq<OutcomeLine>, next: seq<OutcomeLine>)
    requires i < |subs| && |cutoffs| == |subs|
    requires RefreshAll(subs[i..], logs, limit, cutoffs[i..], out) == RefreshAll(subs, logs, limit, cutoffs, file)
    requires next == out + Harvest(SubLog(subs[i], logs, limit), cutoffs[i], OutcomeKeysOf(out))
    ensures RefreshAll(subs[i + 1..], logs, limit, cutoffs[i + 1..], next) == RefreshAll(subs, logs, limit, cutoffs, file)
  {
    var rest := subs[i..];
    var cs := cutoffs[i..];
    assert rest[0] == subs[i] && rest[1..] == subs[i + 1..];
    assert cs[0] == cutoffs[i] && cs[1..] == cutoffs[i + 1..];
    RefreshAllHead(rest, logs, limit, cs, out);
  }

  /** The refresh scans the first subreddit against the file, then the others against the result. */
  lemma RefreshAllHead(subs: seq<string>, logs: map<string, seq<ModAction>>, limit: nat, cutoffs: seq<real>,
                       file: seq<OutcomeLine>)
    requires subs != [] && |cutoffs| == |subs|
    ensures RefreshAll(subs, logs, limit, cutoffs, file)
         == RefreshAll(subs[1..], logs, limit, cutoffs[1..],
                       file + Harvest(SubLog(subs[0], logs, limit), cutoffs[0], OutcomeKeysOf(file)))
  {
  }

  /** The cutoff `utcnow() - timedelta(days=lookback)` for each clock reading. */
  function Cutoffs(nows: seq<real>, lookbackDays: int): (cs: seq<real>)
    ensures |cs| == |nows|
  {
    seq(|nows|, i requires 0 <= i < |nows| => nows[i] - lookbackDays as real * 86400.0)
  }

  /**
   * `refresh_modlog`: scans every configured subreddit, returning the new
   * file and each scan's `count_new`. `nows[i]` is the clock reading taken
   * when the scan of `subs[i]` starts.
   */
  method RefreshModlog(subs: seq<string>, logs: map<string, seq<ModAction>>, limit: nat, nows: seq<real>,
                       lookbackDays: int, file: seq<OutcomeLine>)
    returns (out: seq<OutcomeLine>, counts: seq<nat>)
    requires |nows| == |subs|
    ensures out == RefreshAll(subs, logs, limit, Cutoffs(nows, lookbackDays), file)
    ensures |counts| == |subs| && Sum(counts) == |out| - |file|
  {
    ghost var cutoffs := Cutoffs(nows, lookbackDays);
    out := file;
    counts := [];
    var i := 0;
    while i < |subs|
      invariant 0 <= i <= |subs|
      invariant RefreshAll(subs[i..], logs, limit, cutoffs[i..], out) == RefreshAll(subs, logs, limit, cutoffs, file)
      invariant |counts| == i && |file| <= |out| && Sum(counts) == |out| - |file|
    {
      var cutoff := nows[i] - lookbackDays as real * 86400.0;
      assert cutoff == cutoffs[i];
      var log := if subs[i] in logs then Take(logs[subs[i]], limit) else [];
      assert log == SubLog(subs[i], logs, limit);
      var next, n := RefreshSub(log, cutoff, out);
      RefreshAdvance(subs, i, logs, limit, cutoffs, file, out, next);
      SumSnoc(counts, n);
      out := next;
      counts := counts + [n];
      i := i + 1;
    }
  }
}
