/** The utilities section of bot.py: percentage capping, subreddit names, fullnames. */
module BotUtil {
  import opened Wrappers
  import opened Text
  import opened Records

  function Max(a: real, b: real): real { if a >= b then a else b }
  function Min(a: real, b: real): real { if a <= b then a else b }

  /** `cap_pct`: clamps a percentage into [0, 100]. */
  function CapPct(x: real): (r: real)
    ensures 0.0 <= r <= 100.0
    ensures 0.0 <= x <= 100.0 ==> r == x
    ensures x < 0.0 ==> r == 0.0
    ensures x > 100.0 ==> r == 100.0
  {
    Max(0.0, Min(100.0, x))
  }

  /** The name `sub_name_lower` starts from: `display_name or display_name_prefixed or str(sub)`. */
  function DisplayName(sub: SubRef): (name: string)
    ensures Present(sub.displayName) ==> name == sub.displayName.value
    ensures !Present(sub.displayName) && Present(sub.displayNamePrefixed) ==> name == sub.displayNamePrefixed.value
    ensures !Present(sub.displayName) && !Present(sub.displayNamePrefixed) ==> name == sub.text
  {
    var o := Or(sub.displayName, sub.displayNamePrefixed);
    if Present(o) then o.value else sub.text
  }

  /** The name with a leading `r/` (in either case) cut off, as `sub_name_lower` does. */
  function Unprefixed(name: string): string {
    if StartsWith(Lower(name), "r/") then name[2..] else name
  }

  /** `sub_name_lower`: a lower-case subreddit name without its `r/` prefix. */
  function SubNameLower(sub: SubRef): (r: string)
    ensures IsLowerCase(r)
    ensures |r| <= |DisplayName(sub)|
  {
    Lower(Unprefixed(DisplayName(sub)))
  }

  /**
   * Writing a subreddit as `name`, `r/name` or `R/name`, in any letter case,
   * gives the same lower-case name.
   */
  lemma SubNamePrefixAndCase(name: string, variant: string, p: string)
    requires !StartsWith(Lower(name), "r/")
    requires Lower(variant) == Lower(name)
    requires p == "r/" || p == "R/"
    ensures SubNameLower(SubRef(Some(name), None, "")) == Lower(name)
    ensures SubNameLower(SubRef(Some(p + variant), None, "")) == Lower(name)
    ensures SubNameLower(SubRef(None, Some(p + variant), name)) == Lower(name)
  {
    LowerConcat(p, variant);
    assert Lower(p + variant)[..2] == "r/";
    assert (p + variant)[2..] == variant;
  }

  /**
   * `normalize_fullname`: turns a bare id into a fullname, `t1_` for a
   * comment and `t3_` for anything else; fullnames and `""` pass unchanged.
   */
  function NormalizeFullname(kind: string, idOrFull: string): (r: string)
    ensures r == "" <==> idOrFull == ""
    ensures r != "" ==> HasKindPrefix(r)
    ensures HasKindPrefix(idOrFull) ==> r == idOrFull
    ensures !HasKindPrefix(idOrFull) && idOrFull != "" ==>
      r == (if kind == "comment" then "t1_" else "t3_") + idOrFull
  {
    if idOrFull == "" then ""
    else if StartsWith(idOrFull, "t1_") || StartsWith(idOrFull, "t3_") then idOrFull
    else if kind == "comment" then "t1_" + idOrFull
    else "t3_" + idOrFull
  }

  /** Normalising twice, with any kinds, is normalising once. */
  lemma NormalizeFullnameIdempotent(k1: string, k2: string, s: string)
    ensures NormalizeFullname(k2, NormalizeFullname(k1, s)) == NormalizeFullname(k1, s)
  {
  }
}
