/**
 * The rows and objects both source files pass around: PRAW moderation-log
 * actions, lines of the outcomes file (`report_outcomes.jsonl`), rows of the
 * scan log (`reported_ids.jsonl`), and Python's truthiness rules for the
 * optional fields of those JSON rows.
 */
module Records {
  import opened Wrappers
  import opened Text

  /** A string field read with Python truthiness: missing (`None`) and `""` are false. */
  predicate Present(o: Option<string>) {
    o.Some? && o.value != ""
  }

  /** Python's `a or b` on two optional strings. */
  function Or(a: Option<string>, b: Option<string>): (r: Option<string>)
    ensures Present(r) <==> Present(a) || Present(b)
    ensures Present(a) ==> r == a
  {
    if Present(a) then a else b
  }

  /** A number field read with Python truthiness: missing and `0` are false. */
  predicate PresentReal(o: Option<real>) {
    o.Some? && o.value != 0.0
  }

  /** Python's `a or b` on two optional numbers. */
  function OrReal(a: Option<real>, b: Option<real>): (r: Option<real>)
    ensures PresentReal(r) <==> PresentReal(a) || PresentReal(b)
    ensures PresentReal(a) ==> r == a
  {
    if PresentReal(a) then a else b
  }

  /** Python's `int(x)` on a float: truncation toward zero. */
  function Trunc(x: real): (n: int)
    ensures x >= 0.0 ==> 0.0 <= n as real <= x < n as real + 1.0
    ensures x < 0.0 ==> n as real - 1.0 < x <= n as real <= 0.0
  {
    if x >= 0.0 then x.Floor else -((-x).Floor)
  }

  lemma TruncOfInt(n: int)
    ensures Trunc(n as real) == n
  {
  }

  lemma TruncAtLeastOne(x: real)
    requires x >= 1.0
    ensures Trunc(x) >= 1
  {
  }

  /** The two decided outcomes a moderation action can record. */
  datatype Status = Approved | Removed {
    /** The word both source files write for the outcome. */
    function Text(): string {
      match this
      case Approved => "approved"
      case Removed => "removed"
    }
  }

  /** A Reddit fullname of a comment (`t1_`) or of a submission (`t3_`). */
  predicate HasKindPrefix(s: string) {
    StartsWith(s, "t1_") || StartsWith(s, "t3_")
  }

  /** What the bot can read off a PRAW subreddit object. */
  datatype SubRef = SubRef(displayName: Option<string>, displayNamePrefixed: Option<string>, text: string)

  /** A moderator object: its `name` attribute and what `str()` makes of it. */
  datatype Moderator = Moderator(name: Option<string>, text: string)

  /**
   * One entry of a subreddit's moderation log. `action` and `createdUtc` carry
   * the defaults the source substitutes for a missing attribute (`""`, `0`).
   */
  datatype ModAction = ModAction(
    action: string,
    targetFullname: Option<string>,
    createdUtc: real,
    subreddit: SubRef,
    mod: Option<Moderator>)

  /**
   * One line of the outcomes file. bot.py writes `ts`, `action`, `outcome`;
   * modlog_refresh.py writes `status`, `raw_action`, `created_utc`; readers
   * also accept a legacy `id`. A field the line lacks is `None`.
   */
  datatype OutcomeLine = OutcomeLine(
    targetFullname: Option<string>,
    id: Option<string>,
    action: Option<string>,
    outcome: Option<string>,
    status: Option<string>,
    rawAction: Option<string>,
    ts: Option<real>,
    createdUtc: Option<real>,
    subreddit: Option<string>,
    mod: Option<string>)

  /** One line of the scan log, as bot.py's `append_reported` writes it. */
  datatype ScanRow = ScanRow(
    id: Option<string>,
    targetFullname: Option<string>,
    subreddit: string,
    reported: bool,
    tox: real,
    ts: real)

  /** `seq[:n]` for a non-negative `n`. */
  function Take<T>(s: seq<T>, n: nat): (r: seq<T>)
    ensures |r| == if n < |s| then n else |s|
    ensures r == s[..|r|]
  {
    if n < |s| then s[..n] else s
  }

  function Sum(xs: seq<nat>): nat
    decreases |xs|
  {
    if xs == [] then 0 else Sum(xs[..|xs| - 1]) + xs[|xs| - 1]
  }

  lemma SumSnoc(xs: seq<nat>, x: nat)
    ensures Sum(xs + [x]) == Sum(xs) + x
  {
    assert (xs + [x])[..|xs|] == xs;
  }

  /** The fullname a scan-log row names: `target_fullname or id`. */
  function RowFullname(row: ScanRow): Option<string> {
    Or(row.targetFullname, row.id)
  }
}
