/** The "Streams and reporting" section of bot.py: scoring buckets and the scan log's seen set. */
module BotReporting {
  import opened Wrappers
  import opened Text
  import opened Records
  import opened BotUtil

  /** The scoring settings of the bot's `Config`. */
  datatype Thresholds = Thresholds(threshold: real, confMed: real, confHigh: real, confVHigh: real)

  /** `THRESHOLD`, `CONF_MEDIUM`, `CONF_HIGH`, `CONF_VERY_HIGH` when the environment leaves them unset. */
  const DefaultThresholds: Thresholds := Thresholds(0.9, 0.85, 0.9, 0.95)

  datatype Bucket = Low | Medium | High | VeryHigh {
    function Rank(): nat {
      match this
      case Low => 0
      case Medium => 1
      case High => 2
      case VeryHigh => 3
    }
    /** The label the scan log line prints. */
    function Label(): string {
      match this
      case Low => "LOW"
      case Medium => "MEDIUM"
      case High => "HIGH"
      case VeryHigh => "VERY HIGH"
    }
  }

  /** `confidence_bucket`: the first of the three thresholds, from the top, that the score reaches. */
  function ConfidenceBucket(s: real, t: Thresholds): (b: Bucket)
    ensures b == VeryHigh <==> s >= t.confVHigh
    ensures b == High <==> s < t.confVHigh && s >= t.confHigh
    ensures b == Medium <==> s < t.confVHigh && s < t.confHigh && s >= t.confMed
    ensures b == Low <==> s < t.confVHigh && s < t.confHigh && s < t.confMed
  {
    if s >= t.confVHigh then VeryHigh
    else if s >= t.confHigh then High
    else if s >= t.confMed then Medium
    else Low
  }

  /** A higher score never lands in a lower bucket, whatever the order of the thresholds. */
  lemma ConfidenceBucketMonotone(s1: real, s2: real, t: Thresholds)
    requires s1 <= s2
    ensures ConfidenceBucket(s1, t).Rank() <= ConfidenceBucket(s2, t).Rank()
  {
  }

  /** With ordered thresholds every bucket is a half-open score band. */
  lemma ConfidenceBucketBands(s: real, t: Thresholds)
    requires t.confMed <= t.confHigh <= t.confVHigh
    ensures ConfidenceBucket(s, t) == High <==> t.confHigh <= s < t.confVHigh
    ensures ConfidenceBucket(s, t) == Medium <==> t.confMed <= s < t.confHigh
    ensures ConfidenceBucket(s, t) == Low <==> s < t.confMed
  {
  }

  /** `should_report`: the score reaches the report threshold. */
  function ShouldReport(tox: real, t: Thresholds): (r: bool)
    ensures r <==> tox >= t.threshold
  {
    tox >= t.threshold
  }

  /** Whenever the report threshold is at least `CONF_HIGH` (as by default), every reported score is HIGH or VERY HIGH. */
  lemma ReportedIsHighConfidence(tox: real, t: Thresholds)
    requires t.threshold >= t.confHigh
    requires ShouldReport(tox, t)
    ensures ConfidenceBucket(tox, t).Rank() >= High.Rank()
  {
  }

  /** What one scan-log row adds to `load_seen_ids`' set. */
  function SeenIdOf(row: ScanRow): Option<string> {
    var tfn := RowFullname(row);
    if Present(tfn) then Some(NormalizeFullname("comment", tfn.value)) else None
  }

  /** The set `load_seen_ids` builds from the rows of the scan log. */
  function SeenIdsOf(rows: seq<ScanRow>): set<string>
    decreases |rows|
  {
    if rows == [] then {}
    else
      var last := SeenIdOf(rows[|rows| - 1]);
      SeenIdsOf(rows[..|rows| - 1]) + (if last.Some? then {last.value} else {})
  }

  lemma {:induction false} SeenIdsOfAppend(rows: seq<ScanRow>, more: seq<ScanRow>)
    ensures SeenIdsOf(rows + more) == SeenIdsOf(rows) + SeenIdsOf(more)
    decreases |more|
  {
    if more == [] {
      assert rows + more == rows;
    } else {
      var init := more[..|more| - 1];
      assert (rows + more)[..|rows + more| - 1] == rows + init;
      SeenIdsOfAppend(rows, init);
    }
  }

  /**
   * Every id in the seen set is a fullname, every row with a `target_fullname`
   * or `id` contributes its normalised fullname, and nothing else is in it.
   */
  lemma {:induction false} SeenIdsOfMeaning(rows: seq<ScanRow>)
    ensures forall x | x in SeenIdsOf(rows) :: HasKindPrefix(x)
    ensures forall i | 0 <= i < |rows| && Present(RowFullname(rows[i])) ::
      NormalizeFullname("comment", RowFullname(rows[i]).value) in SeenIdsOf(rows)
    ensures forall x | x in SeenIdsOf(rows) ::
      exists i | 0 <= i < |rows| :: SeenIdOf(rows[i]) == Some(x)
    decreases |rows|
  {
    if rows != [] {
      var init := rows[..|rows| - 1];
      SeenIdsOfMeaning(init);
      forall i | 0 <= i < |rows| - 1 ensures rows[i] == init[i] { }
      forall x | x in SeenIdsOf(rows) ensures exists i | 0 <= i < |rows| :: SeenIdOf(rows[i]) == Some(x) {
        if x in SeenIdsOf(init) {
          var i :| 0 <= i < |init| && SeenIdOf(init[i]) == Some(x);
          assert SeenIdOf(rows[i]) == Some(x);
        } else {
          assert SeenIdOf(rows[|rows| - 1]) == Some(x);
        }
      }
    }
  }

  /** `load_seen_ids`: collects the normalised fullname of every scan-log row that names one. */
  method LoadSeenIds(rows: seq<ScanRow>) returns (seen: set<string>)
    ensures seen == SeenIdsOf(rows)
    ensures forall x | x in seen :: HasKindPrefix(x)
    ensures forall i | 0 <= i < |rows| && Present(RowFullname(rows[i])) ::
      NormalizeFullname("comment", RowFullname(rows[i]).value) in seen
  {
    seen := {};
    var i := 0;
    while i < |rows|
      invariant 0 <= i <= |rows|
      invariant seen == SeenIdsOf(rows[..i])
    {
      var row := rows[i];
      var tfn := Or(row.targetFullname, row.id);
      if Present(tfn) {
        var full := NormalizeFullname("comment", tfn.value);
        seen := seen + {full};
      }
      assert rows[..i + 1][..i] == rows[..i];
      i := i + 1;
    }
    assert rows[..i] == rows;
    SeenIdsOfMeaning(rows);
  }
}
