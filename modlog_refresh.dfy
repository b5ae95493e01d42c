/**
 * modlog_refresh.py: the stand-alone moderation-log harvester. It records
 * approve/remove decisions as `{target_fullname, status, raw_action,
 * created_utc, subreddit, mod}` lines, deduplicated by the string key
 * `fullname|status|int(created_utc)`, with a per-subreddit fetch limit and a
 * time cutoff.
 */
module ModlogRefresh {
  import opened Wrappers
  import opened Text
  import opened Records

  const ApproveActions: set<string> := {"approvecomment", "approvelink"}
  const RemoveActions: set<string> := {"removecomment", "removelink", "spamcomment", "spamlink", "moderator_remove", "remove"}

  lemma ActionSetsDisjoint()
    ensures ApproveActions !! RemoveActions
  {
  }

  /** The `subreddits` argument: a comma-separated string or a list of names. */
  datatype SubsArg = Csv(text: string) | Names(items: seq<string>)

  /** The non-blank pieces, stripped, in their order. */
  function KeepNames(pieces: seq<string>): (r: seq<string>)
    ensures |r| <= |pieces|
    ensures forall i | 0 <= i < |r| :: r[i] != "" && IsStripped(r[i])
    decreases |pieces|
  {
    if pieces == [] then []
    else
      var s := Strip(pieces[0]);
      (if s != "" then [s] else []) + KeepNames(pieces[1..])
  }

  lemma {:induction false} KeepNamesAppend(a: seq<string>, b: seq<string>)
    ensures KeepNames(a + b) == KeepNames(a) + KeepNames(b)
    decreases |a|
  {
    if a != [] {
      var s := Strip(a[0]);
      var head := if s != "" then [s] else [];
      assert (a + b)[0] == a[0];
      assert (a + b)[1..] == a[1..] + b;
      KeepNamesAppend(a[1..], b);
      AppendAssoc(head, KeepNames(a[1..]), KeepNames(b));
    } else {
      assert a + b == b;
    }
  }

  lemma {:induction false} KeepNamesOfNames(xs: seq<string>)
    requires forall i | 0 <= i < |xs| :: xs[i] != "" && IsStripped(xs[i])
    ensures KeepNames(xs) == xs
    decreases |xs|
  {
    if xs != [] {
      KeepNamesOfNames(xs[1..]);
    }
  }

  lemma {:induction false} KeepNamesNoChar(pieces: seq<string>, c: char)
    requires forall i | 0 <= i < |pieces| :: c !in pieces[i]
    ensures forall i | 0 <= i < |KeepNames(pieces)| :: c !in KeepNames(pieces)[i]
    decreases |pieces|
  {
    if pieces != [] {
      StripKeepsOutChar(pieces[0], c);
      KeepNamesNoChar(pieces[1..], c);
    }
  }

  /** `_parse_subs`: the stripped, non-blank names in their given order. */
  function ParseSubs(value: SubsArg): (r: seq<string>)
    ensures forall i | 0 <= i < |r| :: r[i] != "" && IsStripped(r[i])
    ensures value.Csv? ==> forall i | 0 <= i < |r| :: ',' !in r[i]
  {
    match value
    case Csv(text) =>
      KeepNamesNoChar(Split(text, ','), ',');
      KeepNames(Split(text, ','))
    case Names(items) => KeepNames(items)
  }

  /**
   * Parsing a comma-separated string piece by piece: the first piece, stripped,
   * when it is not blank, then the names of the rest.
   */
  lemma ParseSubsCsvCons(piece: string, rest: string)
    requires ',' !in piece
    ensures ParseSubs(Csv(piece + [','] + rest)) == (if Strip(piece) == "" then [] else [Strip(piece)]) + ParseSubs(Csv(rest))
  {
    SplitCons(piece, rest, ',');
    var pieces := [piece] + Split(rest, ',');
    assert pieces[0] == piece && pieces[1..] == Split(rest, ',');
  }

  /** A string without a comma names one subreddit, or none when it is blank. */
  lemma ParseSubsCsvOne(piece: string)
    requires ',' !in piece
    ensures ParseSubs(Csv(piece)) == if Strip(piece) == "" then [] else [Strip(piece)]
  {
    SplitNone(piece, ',');
    assert [piece][1..] == [];
  }

  /** Parsing keeps order: the names of a concatenation of lists are the concatenated names. */
  lemma ParseSubsKeepsOrder(a: seq<string>, b: seq<string>)
    ensures ParseSubs(Names(a + b)) == ParseSubs(Names(a)) + ParseSubs(Names(b))
  {
    KeepNamesAppend(a, b);
  }

  /** Writing clean names comma-separated and parsing them back gives the same list. */
  lemma ParseSubsJoin(xs: seq<string>)
    requires forall i | 0 <= i < |xs| :: xs[i] != "" && IsStripped(xs[i]) && ',' !in xs[i]
    ensures ParseSubs(Csv(Join(xs, ','))) == xs
  {
    if xs == [] {
      assert Split("", ',') == [""];
    } else {
      SplitJoin(xs, ',');
      KeepNamesOfNames(xs);
    }
  }

  /** Parsing is idempotent: re-joining the parsed names and parsing again changes nothing. */
  lemma ParseSubsIdempotent(value: SubsArg)
    ensures ParseSubs(Names(ParseSubs(value))) == ParseSubs(value)
    ensures value.Csv? ==> ParseSubs(Csv(Join(ParseSubs(value), ','))) == ParseSubs(value)
  {
    KeepNamesOfNames(ParseSubs(value));
    if value.Csv? {
      ParseSubsJoin(ParseSubs(value));
    }
  }

  /** `_normalize_fullname`: the stripped fullname when it is a `t1_`/`t3_` fullname, otherwise `None`. */
  function NormalizeFullname(fullname: Option<string>): (r: Option<string>)
    ensures !Present(fullname) ==> r.None?
    ensures r.Some? <==> Present(fullname) && HasKindPrefix(Strip(fullname.value))
    ensures r.Some? ==> r.value == Strip(r.value) && r.value == Strip(fullname.value)
  {
    if !Present(fullname) then None
    else
      var f := Strip(fullname.value);
      if StartsWith(f, "t1_") || StartsWith(f, "t3_") then Some(f) else None
  }

  /** Normalising a normalised fullname returns it unchanged. */
  lemma NormalizeFullnameIdempotent(fullname: Option<string>)
    ensures NormalizeFullname(fullname).Some? ==> NormalizeFullname(NormalizeFullname(fullname)) == NormalizeFullname(fullname)
  {
  }

  /** `_classify_status`: approve and remove actions, compared case-insensitively. */
  function ClassifyStatus(action: string): (r: Option<Status>)
    ensures r == Some(Approved) <==> Lower(action) in ApproveActions
    ensures r == Some(Removed) <==> Lower(action) in RemoveActions
    ensures r.None? <==> Lower(action) !in ApproveActions + RemoveActions
  {
    var a := Lower(action);
    if a in ApproveActions then Some(Approved)
    else if a in RemoveActions then Some(Removed)
    else None
  }

  /** Two spellings that differ only in letter case classify alike. */
  lemma ClassifyStatusIgnoresCase(a: string, b: string)
    requires Lower(a) == Lower(b)
    ensures ClassifyStatus(a) == ClassifyStatus(b)
  {
  }

  /** A record `refresh_modlog` builds before handing it to `_save_outcome`. */
  datatype OutcomeRecord = OutcomeRecord(
    targetFullname: string, status: Status, rawAction: string,
    createdUtc: real, subreddit: string, mod: string)

  /** The JSON line a record becomes. */
  function ToLine(r: OutcomeRecord): OutcomeLine {
    OutcomeLine(
      targetFullname := Some(r.targetFullname), id := None,
      action := None, outcome := None,
      status := Some(r.status.Text()), rawAction := Some(r.rawAction),
      ts := None, createdUtc := Some(r.createdUtc),
      subreddit := Some(r.subreddit), mod := Some(r.mod))
  }

  function ToLines(rs: seq<OutcomeRecord>): (ls: seq<OutcomeLine>)
    ensures |ls| == |rs| && forall i | 0 <= i < |rs| :: ls[i] == ToLine(rs[i])
  {
    seq(|rs|, i requires 0 <= i < |rs| => ToLine(rs[i]))
  }

  /** The dedup key `fullname|status|int(created_utc)`. */
  function SeenKey(fullname: string, status: string, ts: int): string {
    fullname + "|" + status + "|" + IntToString(ts)
  }

  function RecordKey(r: OutcomeRecord): string {
    SeenKey(r.targetFullname, r.status.Text(), Trunc(r.createdUtc))
  }

  /** The key `_read_seen_keys` takes from one line, if it has a fullname, a decided status and a non-zero time. */
  function LineSeenKey(line: OutcomeLine): Option<string> {
    var fname := line.targetFullname;
    var status := Or(line.status, line.outcome);
    var ts := Trunc(line.createdUtc.GetOr(0.0));
    if Present(fname) && status.Some? && (status.value == "approved" || status.value == "removed") && ts != 0
    then Some(SeenKey(fname.value, status.value, ts))
    else None
  }

  /** The set `_read_seen_keys` builds from the outcomes file. */
  function SeenKeysOf(lines: seq<OutcomeLine>): set<string>
    decreases |lines|
  {
    if lines == [] then {}
    else
      var k := LineSeenKey(lines[|lines| - 1]);
      SeenKeysOf(lines[..|lines| - 1]) + (if k.Some? then {k.value} else {})
  }

  lemma {:induction false} SeenKeysOfAppend(a: seq<OutcomeLine>, b: seq<OutcomeLine>)
    ensures SeenKeysOf(a + b) == SeenKeysOf(a) + SeenKeysOf(b)
    decreases |b|
  {
    if b == [] {
      assert a + b == a;
    } else {
      assert (a + b)[..|a + b| - 1] == a + b[..|b| - 1];
      SeenKeysOfAppend(a, b[..|b| - 1]);
    }
  }

  /**
   * A line yields a key only when it has a `target_fullname`, a status of
   * `approved` or `removed` and a non-zero `created_utc`, and the key is in
   * `_save_outcome`'s format.
   */
  lemma LineSeenKeyFormat(line: OutcomeLine)
    requires LineSeenKey(line).Some?
    ensures Present(line.targetFullname)
    ensures Or(line.status, line.outcome).value in {"approved", "removed"}
    ensures Trunc(line.createdUtc.GetOr(0.0)) != 0
    ensures LineSeenKey(line).value ==
      SeenKey(line.targetFullname.value, Or(line.status, line.outcome).value, Trunc(line.createdUtc.GetOr(0.0)))
  {
  }

  /** A key is in the set `_read_seen_keys` builds exactly when some line yields it. */
  lemma {:induction false} SeenKeysOfMeaning(lines: seq<OutcomeLine>, x: string)
    ensures x in SeenKeysOf(lines) <==> exists i | 0 <= i < |lines| :: LineSeenKey(lines[i]) == Some(x)
    decreases |lines|
  {
    if lines != [] {
      var init := lines[..|lines| - 1];
      SeenKeysOfMeaning(init, x);
      if x in SeenKeysOf(init) {
        var i :| 0 <= i < |init| && LineSeenKey(init[i]) == Some(x);
        assert lines[i] == init[i];
      }
      if exists i | 0 <= i < |lines| :: LineSeenKey(lines[i]) == Some(x) {
        var i :| 0 <= i < |lines| && LineSeenKey(lines[i]) == Some(x);
        if i < |init| { assert init[i] == lines[i]; }
      }
    }
  }

  /** `_read_seen_keys`. */
  method ReadSeenKeys(lines: seq<OutcomeLine>) returns (seen: set<string>)
    ensures seen == SeenKeysOf(lines)
  {
    seen := {};
    var i := 0;
    while i < |lines|
      invariant 0 <= i <= |lines|
      invariant seen == SeenKeysOf(lines[..i])
    {
      var d := lines[i];
      var fname := d.targetFullname;
      var status := Or(d.status, d.outcome);
      var ts := Trunc(d.createdUtc.GetOr(0.0));
      if Present(fname) && status.Some? && (status.value == "approved" || status.value == "removed") && ts != 0 {
        seen := seen + {SeenKey(fname.value, status.value, ts)};
      }
      assert lines[..i + 1][..i] == lines[..i];
      i := i + 1;
    }
    assert lines[..i] == lines;
  }

  /** A saved record reads back, through `_read_seen_keys`, as the key it was saved under. */
  lemma RecordReadsBack(r: OutcomeRecord)
    requires r.targetFullname != "" && Trunc(r.createdUtc) != 0
    ensures LineSeenKey(ToLine(r)) == Some(RecordKey(r))
  {
  }

  /**
   * `_save_outcome`: appends the record and remembers its key unless the key
   * is already known; says whether it wrote.
   */
  method SaveOutcome(file: seq<OutcomeLine>, record: OutcomeRecord, seen: set<string>)
    returns (saved: bool, file': seq<OutcomeLine>, seen': set<string>)
    ensures saved <==> RecordKey(record) !in seen
    ensures saved ==> file' == file + [ToLine(record)] && seen' == seen + {RecordKey(record)}
    ensures !saved ==> file' == file && seen' == seen
  {
    var key := SeenKey(record.targetFullname, record.status.Text(), Trunc(record.createdUtc));
    if key in seen {
      return false, file, seen;
    }
    file' := file + [ToLine(record)];
    seen' := seen + {key};
    saved := true;
  }

  /**
   * The `mod` field: the moderator's name, else its string form, else the
   * string form of a `None` moderator, `"None"`. A missing `mod` attribute is
   * modelled as `None` too.
   */
  function ModText(m: Option<Moderator>): string {
    if m.Some? && Present(m.value.name) then m.value.name.value
    else if m.Some? then m.value.text
    else "None"
  }

  /** The record for one action, or `None` when it is not a decision about a fullname. */
  function RecordOf(a: ModAction): (r: Option<OutcomeRecord>)
    ensures r.Some? ==> HasKindPrefix(r.value.targetFullname) && r.value.createdUtc == a.createdUtc
    ensures r.Some? ==> Some(r.value.status) == ClassifyStatus(a.action)
  {
    var status := ClassifyStatus(a.action);
    var fname := NormalizeFullname(a.targetFullname);
    if status.None? || fname.None? then None
    else Some(OutcomeRecord(fname.value, status.value, a.action, a.createdUtc, a.subreddit.text, ModText(a.mod)))
  }

  function KeysOf(rs: seq<OutcomeRecord>): set<string> {
    set i | 0 <= i < |rs| :: RecordKey(rs[i])
  }

  /** What the scan of one subreddit produces: the records written, the actions fetched, the keys then known. */
  datatype SubScan = SubScan(records: seq<OutcomeRecord>, fetched: nat, seen: set<string>)

  /**
   * The scan of one subreddit's log (already cut to the fetch limit): it
   * fetches actions newest first, stops after the first one older than the
   * cutoff (which still counts as fetched) and saves each decision whose key
   * is new.
   */
  function Scan(actions: seq<ModAction>, cutoff: real, seen: set<string>): (r: SubScan)
    ensures |r.records| <= r.fetched <= |actions|
    decreases |actions|
  {
    if actions == [] then SubScan([], 0, seen)
    else if actions[0].createdUtc < cutoff then SubScan([], 1, seen)
    else
      var rec := RecordOf(actions[0]);
      if rec.None? || RecordKey(rec.value) in seen then
        var rest := Scan(actions[1..], cutoff, seen);
        SubScan(rest.records, rest.fetched + 1, rest.seen)
      else
        var rest := Scan(actions[1..], cutoff, seen + {RecordKey(rec.value)});
        SubScan([rec.value] + rest.records, rest.fetched + 1, rest.seen)
  }

  /**
   * The scan reads nothing past the first action older than the cutoff: it
   * has then fetched exactly the actions up to and including that one, and
   * its records and known keys are those of the scan of the actions before it.
   */
  lemma {:induction false} ScanStopsAtCutoff(actions: seq<ModAction>, cutoff: real, seen: set<string>, k: nat)
    requires k < |actions| && actions[k].createdUtc < cutoff
    requires forall j | 0 <= j < k :: actions[j].createdUtc >= cutoff
    ensures Scan(actions, cutoff, seen).fetched == k + 1
    ensures Scan(actions, cutoff, seen).records == Scan(actions[..k], cutoff, seen).records
    ensures Scan(actions, cutoff, seen).seen == Scan(actions[..k], cutoff, seen).seen
    decreases k
  {
    if k > 0 {
      var pre := actions[..k];
      assert pre[0] == actions[0] && pre[1..] == actions[1..][..k - 1];
      RecentTail(actions, cutoff, k);
      var rec := RecordOf(actions[0]);
      if rec.None? || RecordKey(rec.value) in seen {
        ScanSkip(actions, cutoff, seen);
        ScanSkip(pre, cutoff, seen);
        ScanStopsAtCutoff(actions[1..], cutoff, seen, k - 1);
      } else {
        ScanRecord(actions, cutoff, seen);
        ScanRecord(pre, cutoff, seen);
        ScanStopsAtCutoff(actions[1..], cutoff, seen + {RecordKey(rec.value)}, k - 1);
      }
    }
  }

  /** The actions before the first older one stay before it once the head is dropped. */
  lemma RecentTail(actions: seq<ModAction>, cutoff: real, k: nat)
    requires 0 < k < |actions| && actions[k].createdUtc < cutoff
    requires forall j | 0 <= j < k :: actions[j].createdUtc >= cutoff
    ensures actions[0].createdUtc >= cutoff
    ensures actions[1..][k - 1].createdUtc < cutoff
    ensures forall j | 0 <= j < k - 1 :: actions[1..][j].createdUtc >= cutoff
  {
    assert forall j | 0 <= j < k - 1 :: actions[1..][j] == actions[j + 1];
  }

  /** When no fetched action is older than the cutoff, the scan fetches all of them. */
  lemma {:induction false} ScanFetchesAllRecent(actions: seq<ModAction>, cutoff: real, seen: set<string>)
    requires forall j | 0 <= j < |actions| :: actions[j].createdUtc >= cutoff
    ensures Scan(actions, cutoff, seen).fetched == |actions|
    decreases |actions|
  {
    if actions != [] {
      assert forall j | 0 <= j < |actions| - 1 :: actions[1..][j] == actions[j + 1];
      var rec := RecordOf(actions[0]);
      if rec.None? || RecordKey(rec.value) in seen {
        ScanFetchesAllRecent(actions[1..], cutoff, seen);
      } else {
        ScanFetchesAllRecent(actions[1..], cutoff, seen + {RecordKey(rec.value)});
      }
    }
  }

  /** Every record is a decision about a fullname, no older than `cutoff`, under a key not in `known`. */
  ghost predicate RecordsFresh(rs: seq<OutcomeRecord>, known: set<string>, cutoff: real) {
    forall i | 0 <= i < |rs| ::
      HasKindPrefix(rs[i].targetFullname) && cutoff <= rs[i].createdUtc && RecordKey(rs[i]) !in known
  }

  /** No two records share a key. */
  ghost predicate RecordKeysDistinct(rs: seq<OutcomeRecord>) {
    forall i, j | 0 <= i < j < |rs| :: RecordKey(rs[i]) != RecordKey(rs[j])
  }

  lemma KeysOfCons(r: OutcomeRecord, rs: seq<OutcomeRecord>)
    ensures KeysOf([r] + rs) == {RecordKey(r)} + KeysOf(rs)
  {
    KeysOfAppend([r], rs);
    assert KeysOf([r]) == {RecordKey(r)} by {
      assert [r][0] == r;
    }
  }

  /**
   * The scan writes each new key once: its records are decisions about
   * fullnames, none under a key known beforehand, no two under the same key,
   * and afterwards exactly the written keys have been added to the known ones.
   */
  lemma {:induction false} ScanWritesFreshRecords(actions: seq<ModAction>, cutoff: real, seen: set<string>)
    ensures var r := Scan(actions, cutoff, seen);
      && r.seen == seen + KeysOf(r.records)
      && RecordsFresh(r.records, seen, cutoff)
      && RecordKeysDistinct(r.records)
    decreases |actions|
  {
    var r := Scan(actions, cutoff, seen);
    if actions != [] && actions[0].createdUtc >= cutoff {
      var rec := RecordOf(actions[0]);
      if rec.None? || RecordKey(rec.value) in seen {
        ScanWritesFreshRecords(actions[1..], cutoff, seen);
      } else {
        var k := RecordKey(rec.value);
        var rest := Scan(actions[1..], cutoff, seen + {k});
        ScanWritesFreshRecords(actions[1..], cutoff, seen + {k});
        assert r.records == [rec.value] + rest.records;
        KeysOfCons(rec.value, rest.records);
        assert KeysOf([rec.value]) == {k} by { KeysOfCons(rec.value, []); assert [rec.value] + [] == [rec.value]; }
        assert RecordsFresh([rec.value], seen, cutoff);
        RecordsConcat([rec.value], rest.records, seen, cutoff);
      }
    } else {
      assert r.records == [];
    }
  }

  /** The first `limit` actions of a subreddit's log; a log that cannot be read yields nothing. */
  function Fetchable(name: string, logs: map<string, seq<ModAction>>, limit: int): seq<ModAction> {
    if name in logs then Take(logs[name], if limit < 0 then 0 else limit) else []
  }

  /**
   * The records, the per-subreddit fetch counts and their total of
   * `refresh_modlog` over `subs`, threading the seen keys.
   */
  datatype ScanTotals = ScanTotals(records: seq<OutcomeRecord>, fetched: seq<nat>, scanned: nat, seen: set<string>)

  function ScanAll(subs: seq<string>, logs: map<string, seq<ModAction>>, limit: int, cutoff: real,
                   seen: set<string>): (r: ScanTotals)
    ensures |r.fetched| == |subs|
    decreases |subs|
  {
    if subs == [] then ScanTotals([], [], 0, seen)
    else
      var first := Scan(Fetchable(subs[0], logs, limit), cutoff, seen);
      var rest := ScanAll(subs[1..], logs, limit, cutoff, first.seen);
      ScanTotals(first.records + rest.records, [first.fetched] + rest.fetched, first.fetched + rest.scanned, rest.seen)
  }

  /**
   * The counters of the whole refresh: no subreddit fetches more than its
   * limit, and no more records are written than actions are fetched.
   */
  lemma {:induction false} ScanAllCounts(subs: seq<string>, logs: map<string, seq<ModAction>>, limit: int,
                                         cutoff: real, seen: set<string>)
    ensures var r := ScanAll(subs, logs, limit, cutoff, seen);
      && (forall i | 0 <= i < |subs| :: r.fetched[i] <= |Fetchable(subs[i], logs, limit)| && r.fetched[i] <= if limit < 0 then 0 else limit)
      && r.scanned == Sum(r.fetched) && |r.records| <= r.scanned
  {
    ScanAllFetchBounds(subs, logs, limit, cutoff, seen);
    ScanAllTotal(subs, logs, limit, cutoff, seen);
  }

  lemma {:induction false} ScanAllFetchBounds(subs: seq<string>, logs: map<string, seq<ModAction>>, limit: int,
                                              cutoff: real, seen: set<string>)
    ensures var r := ScanAll(subs, logs, limit, cutoff, seen);
      forall i | 0 <= i < |subs| :: r.fetched[i] <= |Fetchable(subs[i], logs, limit)| && r.fetched[i] <= if limit < 0 then 0 else limit
    decreases |subs|
  {
    if subs != [] {
      var first := Scan(Fetchable(subs[0], logs, limit), cutoff, seen);
      var rest := ScanAll(subs[1..], logs, limit, cutoff, first.seen);
      var r := ScanAll(subs, logs, limit, cutoff, seen);
      ScanAllFetchBounds(subs[1..], logs, limit, cutoff, first.seen);
      assert r.fetched == [first.fetched] + rest.fetched;
      forall i | 0 < i < |subs| ensures subs[i] == subs[1..][i - 1] && r.fetched[i] == rest.fetched[i - 1] { }
    }
  }

  lemma {:induction false} ScanAllTotal(subs: seq<string>, logs: map<string, seq<ModAction>>, limit: int,
                                        cutoff: real, seen: set<string>)
    ensures var r := ScanAll(subs, logs, limit, cutoff, seen);
      r.scanned == Sum(r.fetched) && |r.records| <= r.scanned
    decreases |subs|
  {
    if subs != [] {
      var first := Scan(Fetchable(subs[0], logs, limit), cutoff, seen);
      var rest := ScanAll(subs[1..], logs, limit, cutoff, first.seen);
      ScanAllTotal(subs[1..], logs, limit, cutoff, first.seen);
      SumCons(first.fetched, rest.fetched);
    }
  }

  /**
   * Across all subreddits the written keys are new and pairwise distinct, and
   * the known keys grow by exactly the written ones.
   */
  lemma {:induction false} ScanAllWritesFreshRecords(subs: seq<string>, logs: map<string, seq<ModAction>>, limit: int,
                                                     cutoff: real, seen: set<string>)
    ensures var r := ScanAll(subs, logs, limit, cutoff, seen);
      && r.seen == seen + KeysOf(r.records)
      && RecordsFresh(r.records, seen, cutoff)
      && RecordKeysDistinct(r.records)
    decreases |subs|
  {
    if subs != [] {
      var first := Scan(Fetchable(subs[0], logs, limit), cutoff, seen);
      var rest := ScanAll(subs[1..], logs, limit, cutoff, first.seen);
      ScanWritesFreshRecords(Fetchable(subs[0], logs, limit), cutoff, seen);
      ScanAllWritesFreshRecords(subs[1..], logs, limit, cutoff, first.seen);
      KeysOfAppend(first.records, rest.records);
      RecordsConcat(first.records, rest.records, seen, cutoff);
    }
  }

  lemma RecordsConcat(a: seq<OutcomeRecord>, b: seq<OutcomeRecord>, seen: set<string>, cutoff: real)
    requires RecordsFresh(a, seen, cutoff) && RecordKeysDistinct(a)
    requires RecordsFresh(b, seen + KeysOf(a), cutoff) && RecordKeysDistinct(b)
    ensures RecordsFresh(a + b, seen, cutoff) && RecordKeysDistinct(a + b)
  {
    var ab := a + b;
    forall i | 0 <= i < |ab|
      ensures HasKindPrefix(ab[i].targetFullname) && cutoff <= ab[i].createdUtc && RecordKey(ab[i]) !in seen
    {
      if i < |a| { assert ab[i] == a[i]; } else { assert ab[i] == b[i - |a|]; }
    }
    forall i, j | 0 <= i < j < |ab| ensures RecordKey(ab[i]) != RecordKey(ab[j]) {
      if j < |a| {
        assert ab[i] == a[i] && ab[j] == a[j];
      } else if i < |a| {
        assert ab[i] == a[i] && ab[j] == b[j - |a|];
        assert RecordKey(a[i]) in KeysOf(a);
      } else {
        assert ab[i] == b[i - |a|] && ab[j] == b[j - |a|];
      }
    }
  }

  lemma {:induction false} SumCons(x: nat, xs: seq<nat>)
    ensures Sum([x] + xs) == x + Sum(xs)
    decreases |xs|
  {
    if xs != [] {
      var init := xs[..|xs| - 1];
      assert ([x] + xs)[..|[x] + xs| - 1] == [x] + init;
      SumCons(x, init);
    } else {
      assert [x] + xs == [x];
    }
  }

  lemma KeysOfAppend(a: seq<OutcomeRecord>, b: seq<OutcomeRecord>)
    ensures KeysOf(a + b) == KeysOf(a) + KeysOf(b)
  {
    var ab := a + b;
    forall x | x in KeysOf(ab) ensures x in KeysOf(a) + KeysOf(b) {
      var i :| 0 <= i < |ab| && RecordKey(ab[i]) == x;
      if i < |a| { assert ab[i] == a[i]; } else { assert ab[i] == b[i - |a|]; }
    }
    forall x | x in KeysOf(a) ensures x in KeysOf(ab) {
      var i :| 0 <= i < |a| && RecordKey(a[i]) == x;
      assert ab[i] == a[i];
    }
    forall x | x in KeysOf(b) ensures x in KeysOf(ab) {
      var i :| 0 <= i < |b| && RecordKey(b[i]) == x;
      assert ab[|a| + i] == b[i];
    }
  }

  /**
   * Once every key the scan would record is known, the same scan records
   * nothing, also when it starts from a later cutoff.
   */
  lemma {:induction false} ScanSaturated(actions: seq<ModAction>, cutoff: real, later: real, seen: set<string>,
                                         known: set<string>)
    requires cutoff <= later && Scan(actions, cutoff, seen).seen <= known
    ensures Scan(actions, later, known).records == [] && Scan(actions, later, known).seen == known
    decreases |actions|
  {
    ScanWritesFreshRecords(actions, cutoff, seen);
    if actions != [] && actions[0].createdUtc >= later {
      var rec := RecordOf(actions[0]);
      if rec.None? || RecordKey(rec.value) in seen {
        ScanSaturated(actions[1..], cutoff, later, seen, known);
      } else {
        var k := RecordKey(rec.value);
        ScanWritesFreshRecords(actions[1..], cutoff, seen + {k});
        ScanSaturated(actions[1..], cutoff, later, seen + {k}, known);
      }
    }
  }

  lemma {:induction false} ScanAllSaturated(subs: seq<string>, logs: map<string, seq<ModAction>>, limit: int,
                                            cutoff: real, later: real, seen: set<string>, known: set<string>)
    requires cutoff <= later && ScanAll(subs, logs, limit, cutoff, seen).seen <= known
    ensures ScanAll(subs, logs, limit, later, known).records == []
    ensures ScanAll(subs, logs, limit, later, known).seen == known
    decreases |subs|
  {
    if subs != [] {
      var log := Fetchable(subs[0], logs, limit);
      var first := Scan(log, cutoff, seen);
      ScanAllWritesFreshRecords(subs[1..], logs, limit, cutoff, first.seen);
      ScanSaturated(log, cutoff, later, seen, known);
      ScanAllSaturated(subs[1..], logs, limit, cutoff, later, first.seen, known);
    }
  }

  lemma KeysOfSnoc(rs: seq<OutcomeRecord>, r: OutcomeRecord)
    ensures KeysOf(rs + [r]) == KeysOf(rs) + {RecordKey(r)}
  {
    KeysOfAppend(rs, [r]);
    assert KeysOf([r]) == {RecordKey(r)} by {
      assert [r][0] == r;
    }
  }

  lemma {:induction false} RecordsReadBack(rs: seq<OutcomeRecord>)
    requires forall i | 0 <= i < |rs| :: rs[i].targetFullname != "" && Trunc(rs[i].createdUtc) != 0
    ensures SeenKeysOf(ToLines(rs)) == KeysOf(rs)
    decreases |rs|
  {
    if rs != [] {
      var init := rs[..|rs| - 1];
      var last := rs[|rs| - 1];
      assert rs == init + [last];
      var ls := ToLines(rs);
      assert ls[..|ls| - 1] == ToLines(init);
      assert ls[|ls| - 1] == ToLine(last);
      RecordsReadBack(init);
      RecordReadsBack(last);
      assert SeenKeysOf(ls) == KeysOf(init) + {RecordKey(last)};
      KeysOfSnoc(init, last);
    }
  }

  /**
   * Re-running the refresh over unchanged moderation logs writes nothing,
   * although the second run reads a later clock: every record of the first
   * run reads back as a known key.
   */
  lemma RefreshRerunWritesNothing(subs: seq<string>, logs: map<string, seq<ModAction>>, limit: int,
                                  cutoff: real, later: real, file: seq<OutcomeLine>)
    requires 1.0 <= cutoff <= later
    ensures var once := ScanAll(subs, logs, limit, cutoff, SeenKeysOf(file));
      ScanAll(subs, logs, limit, later, SeenKeysOf(file + ToLines(once.records))).records == []
  {
    var once := ScanAll(subs, logs, limit, cutoff, SeenKeysOf(file));
    ScanAllWritesFreshRecords(subs, logs, limit, cutoff, SeenKeysOf(file));
    forall i | 0 <= i < |once.records|
      ensures once.records[i].targetFullname != "" && Trunc(once.records[i].createdUtc) != 0
    {
      TruncAtLeastOne(once.records[i].createdUtc);
    }
    RecordsReadBack(once.records);
    SeenKeysOfAppend(file, ToLines(once.records));
    ScanAllSaturated(subs, logs, limit, cutoff, later, SeenKeysOf(file), SeenKeysOf(file + ToLines(once.records)));
  }

  lemma ToLinesAppend(a: seq<OutcomeRecord>, b: seq<OutcomeRecord>)
    ensures ToLines(a + b) == ToLines(a) + ToLines(b)
  {
  }

  lemma ToLinesExtend(file: seq<OutcomeLine>, a: seq<OutcomeRecord>, b: seq<OutcomeRecord>)
    ensures file + ToLines(a) + ToLines(b) == file + ToLines(a + b)
  {
    ToLinesAppend(a, b);
  }

  lemma ToLinesSnoc(file: seq<OutcomeLine>, rs: seq<OutcomeRecord>, r: OutcomeRecord)
    ensures file + ToLines(rs) + [ToLine(r)] == file + ToLines(rs + [r])
  {
    ToLinesAppend(rs, [r]);
  }

  /** The scan passes over an action it does not record. */
  lemma ScanSkip(actions: seq<ModAction>, cutoff: real, seen: set<string>)
    requires actions != [] && actions[0].createdUtc >= cutoff
    requires RecordOf(actions[0]).None? || RecordKey(RecordOf(actions[0]).value) in seen
    ensures var rest := Scan(actions[1..], cutoff, seen);
      Scan(actions, cutoff, seen) == SubScan(rest.records, rest.fetched + 1, rest.seen)
  {
  }

  /** The scan records an action whose key is new. */
  lemma ScanRecord(actions: seq<ModAction>, cutoff: real, seen: set<string>)
    requires actions != [] && actions[0].createdUtc >= cutoff
    requires RecordOf(actions[0]).Some? && RecordKey(RecordOf(actions[0]).value) !in seen
    ensures var rec := RecordOf(actions[0]).value;
      var rest := Scan(actions[1..], cutoff, seen + {RecordKey(rec)});
      Scan(actions, cutoff, seen) == SubScan([rec] + rest.records, rest.fetched + 1, rest.seen)
  {
  }

  /**
   * The body of the scan loop for an action inside the window: classify it,
   * normalise its target and save it unless its key is known. Returns the
   * record it saved, if any.
   */
  method SaveDecision(file: seq<OutcomeLine>, seen: set<string>, action: ModAction)
    returns (file': seq<OutcomeLine>, seen': set<string>, saved: Option<OutcomeRecord>)
    ensures var rec := RecordOf(action);
      saved == (if rec.None? || RecordKey(rec.value) in seen then None else rec)
    ensures saved.Some? ==> file' == file + [ToLine(saved.value)] && seen' == seen + {RecordKey(saved.value)}
    ensures saved.None? ==> file' == file && seen' == seen
  {
    var status := ClassifyStatus(action.action);
    if status.None? {
      return file, seen, None;
    }
    var fname := NormalizeFullname(action.targetFullname);
    if fname.None? {
      return file, seen, None;
    }
    var record := OutcomeRecord(fname.value, status.value, action.action, action.createdUtc,
                                action.subreddit.text, ModText(action.mod));
    var ok;
    ok, file', seen' := SaveOutcome(file, record, seen);
    saved := if ok then Some(record) else None;
  }

  /**
   * After `j` fetched actions and the records `recs`, scanning the rest of
   * `actions` from `seen` completes the scan `total`.
   */
  ghost predicate Tracks(actions: seq<ModAction>, j: nat, cutoff: real, seen: set<string>,
                         recs: seq<OutcomeRecord>, total: SubScan)
    requires j <= |actions|
  {
    var rest := Scan(actions[j..], cutoff, seen);
    recs + rest.records == total.records && j + rest.fetched == total.fetched && rest.seen == total.seen
  }

  lemma TracksStart(actions: seq<ModAction>, cutoff: real, seen: set<string>)
    ensures Tracks(actions, 0, cutoff, seen, [], Scan(actions, cutoff, seen))
  {
    assert actions[0..] == actions;
  }

  lemma TracksSkip(actions: seq<ModAction>, j: nat, cutoff: real, seen: set<string>,
                   recs: seq<OutcomeRecord>, total: SubScan)
    requires j < |actions| && Tracks(actions, j, cutoff, seen, recs, total)
    requires actions[j].createdUtc >= cutoff
    requires RecordOf(actions[j]).None? || RecordKey(RecordOf(actions[j]).value) in seen
    ensures Tracks(actions, j + 1, cutoff, seen, recs, total)
  {
    assert actions[j..][1..] == actions[j + 1..];
    ScanSkip(actions[j..], cutoff, seen);
  }

  lemma TracksRecord(actions: seq<ModAction>, j: nat, cutoff: real, seen: set<string>,
                     recs: seq<OutcomeRecord>, total: SubScan, rec: OutcomeRecord)
    requires j < |actions| && Tracks(actions, j, cutoff, seen, recs, total)
    requires actions[j].createdUtc >= cutoff
    requires RecordOf(actions[j]) == Some(rec) && RecordKey(rec) !in seen
    ensures Tracks(actions, j + 1, cutoff, seen + {RecordKey(rec)}, recs + [rec], total)
  {
    assert actions[j..][1..] == actions[j + 1..];
    ScanRecord(actions[j..], cutoff, seen);
    AppendAssoc(recs, [rec], Scan(actions[j + 1..], cutoff, seen + {RecordKey(rec)}).records);
  }

  lemma TracksStop(actions: seq<ModAction>, j: nat, cutoff: real, seen: set<string>,
                   recs: seq<OutcomeRecord>, total: SubScan)
    requires j < |actions| && Tracks(actions, j, cutoff, seen, recs, total)
    requires actions[j].createdUtc < cutoff
    ensures recs == total.records && j + 1 == total.fetched && seen == total.seen
  {
    assert recs + [] == recs;
  }

  lemma TracksEnd(actions: seq<ModAction>, j: nat, cutoff: real, seen: set<string>,
                  recs: seq<OutcomeRecord>, total: SubScan)
    requires j == |actions| && Tracks(actions, j, cutoff, seen, recs, total)
    ensures recs == total.records && j == total.fetched && seen == total.seen
  {
    assert actions[j..] == [];
    assert recs + [] == recs;
  }

  /** One pass of the scan loop over an action inside the window keeps the file and the fold in step. */
  lemma ScanAdvance(actions: seq<ModAction>, j: nat, cutoff: real, seen: set<string>, recs: seq<OutcomeRecord>,
                    total: SubScan, file: seq<OutcomeLine>, file': seq<OutcomeLine>, seen': set<string>,
                    saved: Option<OutcomeRecord>)
    requires j < |actions| && Tracks(actions, j, cutoff, seen, recs, total)
    requires actions[j].createdUtc >= cutoff
    requires var rec := RecordOf(actions[j]);
      saved == (if rec.None? || RecordKey(rec.value) in seen then None else rec)
    requires saved.Some? ==> file' == file + ToLines(recs) + [ToLine(saved.value)] && seen' == seen + {RecordKey(saved.value)}
    requires saved.None? ==> file' == file + ToLines(recs) && seen' == seen
    ensures var recs' := if saved.Some? then recs + [saved.value] else recs;
      file' == file + ToLines(recs') && Tracks(actions, j + 1, cutoff, seen', recs', total)
  {
    if saved.Some? {
      TracksRecord(actions, j, cutoff, seen, recs, total, saved.value);
      ToLinesSnoc(file, recs, saved.value);
    } else {
      TracksSkip(actions, j, cutoff, seen, recs, total);
    }
  }

  /**
   * The inner loop of `refresh_modlog` for one subreddit: fetch until the
   * limit, stop after the first action older than the cutoff, save each new
   * decision.
   */
  method ScanSubreddit(log: seq<ModAction>, limit: int, cutoff: real, file: seq<OutcomeLine>, seen: set<string>)
    returns (file': seq<OutcomeLine>, seen': set<string>, fetched: nat, written: nat)
    ensures var r := Scan(Take(log, if limit < 0 then 0 else limit), cutoff, seen);
      && file' == file + ToLines(r.records) && seen' == r.seen
      && fetched == r.fetched && written == |r.records|
  {
    ghost var actions := Take(log, if limit < 0 then 0 else limit);
    ghost var total := Scan(actions, cutoff, seen);
    ghost var recs: seq<OutcomeRecord> := [];
    file', seen', fetched, written := file, seen, 0, 0;
    TracksStart(actions, cutoff, seen);
    while fetched < |log|
      invariant fetched <= |actions|
      invariant file' == file + ToLines(recs) && written == |recs|
      invariant Tracks(actions, fetched, cutoff, seen', recs, total)
    {
      if fetched >= limit {
        break;
      }
      var action := log[fetched];
      assert action == actions[fetched];
      fetched := fetched + 1;
      if action.createdUtc < cutoff {
        TracksStop(actions, fetched - 1, cutoff, seen', recs, total);
        return;
      }
      var file'', seen'', saved := SaveDecision(file', seen', action);
      ScanAdvance(actions, fetched - 1, cutoff, seen', recs, total, file, file'', seen'', saved);
      if saved.Some? {
        recs := recs + [saved.value];
        written := written + 1;
      }
      file', seen' := file'', seen'';
    }
    TracksEnd(actions, fetched, cutoff, seen', recs, total);
  }

  /** After the first `i` subreddits, scanning the rest from `seen` completes `total`. */
  ghost predicate TracksAll(subs: seq<string>, i: nat, logs: map<string, seq<ModAction>>, limit: int, cutoff: real,
                            seen: set<string>, recs: seq<OutcomeRecord>, scanned: nat, total: ScanTotals)
    requires i <= |subs|
  {
    var rest := ScanAll(subs[i..], logs, limit, cutoff, seen);
    recs + rest.records == total.records && scanned + rest.scanned == total.scanned && rest.seen == total.seen
  }

  lemma TracksAllStart(subs: seq<string>, logs: map<string, seq<ModAction>>, limit: int, cutoff: real, seen: set<string>)
    ensures TracksAll(subs, 0, logs, limit, cutoff, seen, [], 0, ScanAll(subs, logs, limit, cutoff, seen))
  {
    assert subs[0..] == subs;
  }

  lemma TracksAllStep(subs: seq<string>, i: nat, logs: map<string, seq<ModAction>>, limit: int, cutoff: real,
                      seen: set<string>, recs: seq<OutcomeRecord>, scanned: nat, total: ScanTotals)
    requires i < |subs| && TracksAll(subs, i, logs, limit, cutoff, seen, recs, scanned, total)
    ensures var r := Scan(Fetchable(subs[i], logs, limit), cutoff, seen);
      TracksAll(subs, i + 1, logs, limit, cutoff, r.seen, recs + r.records, scanned + r.fetched, total)
  {
    var r := Scan(Fetchable(subs[i], logs, limit), cutoff, seen);
    assert subs[i..][0] == subs[i];
    assert subs[i..][1..] == subs[i + 1..];
    var rest := ScanAll(subs[i + 1..], logs, limit, cutoff, r.seen);
    AppendAssoc(recs, r.records, rest.records);
  }

  lemma TracksAllEnd(subs: seq<string>, i: nat, logs: map<string, seq<ModAction>>, limit: int, cutoff: real,
                     seen: set<string>, recs: seq<OutcomeRecord>, scanned: nat, total: ScanTotals)
    requires i == |subs| && TracksAll(subs, i, logs, limit, cutoff, seen, recs, scanned, total)
    ensures recs == total.records && scanned == total.scanned
  {
    assert subs[i..] == [];
    assert recs + [] == recs;
  }

  /** The subreddit's fetchable actions are the first `limit` of its log, or none when it has no log. */
  lemma FetchableLog(name: string, logs: map<string, seq<ModAction>>, limit: int)
    ensures Fetchable(name, logs, limit) == Take(if name in logs then logs[name] else [], if limit < 0 then 0 else limit)
  {
  }

  /** One pass of the loop over the subreddits keeps the file and the fold in step. */
  lemma ScanAllAdvance(subs: seq<string>, i: nat, logs: map<string, seq<ModAction>>, limit: int, cutoff: real,
                       file: seq<OutcomeLine>, known: set<string>, recs: seq<OutcomeRecord>, scanned: nat,
                       total: ScanTotals, next: seq<OutcomeLine>, known': set<string>, fetched: nat, w: nat)
    requires i < |subs| && TracksAll(subs, i, logs, limit, cutoff, known, recs, scanned, total)
    requires var r := Scan(Fetchable(subs[i], logs, limit), cutoff, known);
      next == file + ToLines(recs) + ToLines(r.records) && known' == r.seen && fetched == r.fetched && w == |r.records|
    ensures var recs' := recs + Scan(Fetchable(subs[i], logs, limit), cutoff, known).records;
      && next == file + ToLines(recs') && |recs| + w == |recs'|
      && TracksAll(subs, i + 1, logs, limit, cutoff, known', recs', scanned + fetched, total)
  {
    var r := Scan(Fetchable(subs[i], logs, limit), cutoff, known);
    TracksAllStep(subs, i, logs, limit, cutoff, known, recs, scanned, total);
    ToLinesExtend(file, recs, r.records);
  }

  /** The loop of `refresh_modlog` over the parsed subreddit names, with the known keys loaded. */
  method ScanSubreddits(subs: seq<string>, logs: map<string, seq<ModAction>>, limit: int, cutoff: real,
                        file: seq<OutcomeLine>, seen: set<string>)
    returns (written: nat, scanned: nat, file': seq<OutcomeLine>)
    ensures var r := ScanAll(subs, logs, limit, cutoff, seen);
      && file' == file + ToLines(r.records) && written == |r.records| && scanned == r.scanned
      && scanned == Sum(r.fetched) && written <= scanned
  {
    ghost var total := ScanAll(subs, logs, limit, cutoff, seen);
    ghost var recs: seq<OutcomeRecord> := [];
    TracksAllStart(subs, logs, limit, cutoff, seen);
    written, scanned, file' := 0, 0, file;
    var known := seen;
    var i := 0;
    while i < |subs|
      invariant 0 <= i <= |subs|
      invariant file' == file + ToLines(recs) && written == |recs|
      invariant TracksAll(subs, i, logs, limit, cutoff, known, recs, scanned, total)
    {
      var name := subs[i];
      var log := if name in logs then logs[name] else [];
      FetchableLog(name, logs, limit);
      var next, known', fetched, w := ScanSubreddit(log, limit, cutoff, file', known);
      ScanAllAdvance(subs, i, logs, limit, cutoff, file, known, recs, scanned, total, next, known', fetched, w);
      recs := recs + Scan(Fetchable(name, logs, limit), cutoff, known).records;
      file', known := next, known';
      written := written + w;
      scanned := scanned + fetched;
      i := i + 1;
    }
    TracksAllEnd(subs, i, logs, limit, cutoff, known, recs, scanned, total);
    ScanAllTotal(subs, logs, limit, cutoff, seen);
  }

  /**
   * `refresh_modlog`: parses the subreddit list, loads the known keys once
   * from the outcomes file, scans each subreddit back to `now` minus the
   * look-back and returns `(written, scanned)` with the extended file.
   */
  method RefreshModlog(subreddits: SubsArg, logs: map<string, seq<ModAction>>, file: seq<OutcomeLine>,
                       now: real, lookbackDays: int, limit: int)
    returns (written: nat, scanned: nat, file': seq<OutcomeLine>)
    ensures var r := ScanAll(ParseSubs(subreddits), logs, limit, now - lookbackDays as real * 86400.0, SeenKeysOf(file));
      && file' == file + ToLines(r.records) && written == |r.records| && scanned == Sum(r.fetched)
    ensures written <= scanned
  {
    var subs := ParseSubs(subreddits);
    var cutoff := now - lookbackDays as real * 86400.0;
    var seen := ReadSeenKeys(file);
    written, scanned, file' := ScanSubreddits(subs, logs, limit, cutoff, file, seen);
    ScanAllOfRefresh(subreddits, logs, file, now, lookbackDays, limit, subs, cutoff, seen);
  }

  /** The scan `refresh_modlog` runs on its parsed arguments is the one its contract names. */
  lemma ScanAllOfRefresh(subreddits: SubsArg, logs: map<string, seq<ModAction>>, file: seq<OutcomeLine>,
                         now: real, lookbackDays: int, limit: int, subs: seq<string>, cutoff: real, seen: set<string>)
    requires subs == ParseSubs(subreddits) && cutoff == now - lookbackDays as real * 86400.0 && seen == SeenKeysOf(file)
    ensures ScanAll(subs, logs, limit, cutoff, seen)
         == ScanAll(ParseSubs(subreddits), logs, limit, now - lookbackDays as real * 86400.0, SeenKeysOf(file))
  {
  }
}
