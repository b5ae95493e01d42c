/**
 * The few Python `str` operations the moderation bot relies on: whitespace
 * stripping, lower-casing, prefix and substring tests, splitting on a
 * separator and rendering an integer. Strings are sequences of characters.
 */
module Text {

  /** Concatenation of sequences is associative. */
  lemma AppendAssoc<T>(a: seq<T>, b: seq<T>, c: seq<T>)
    ensures a + b + c == a + (b + c)
  {
  }

  /** A non-empty sequence is its front followed by its last element. */
  lemma SplitLast<T>(s: seq<T>)
    requires s != []
    ensures s == s[..|s| - 1] + [s[|s| - 1]]
  {
  }

  /** A sequence that starts with `p` is `p` followed by the rest. */
  lemma PrefixRest<T>(out: seq<T>, p: seq<T>)
    requires |p| <= |out| && out[..|p|] == p
    ensures out == p + out[|p|..]
  {
    assert out == out[..|p|] + out[|p|..];
  }

  /** Cutting a sequence that extends `a + b` after `a` gives `b` followed by the rest. */
  lemma SliceAfterPrefix<T>(out: seq<T>, a: seq<T>, b: seq<T>)
    requires |a + b| <= |out| && out[..|a + b|] == a + b
    ensures out[|a|..] == b + out[|a + b|..]
  {
    var rest := out[|a + b|..];
    assert out == (a + b) + rest;
    assert out[|a|..] == b + rest;
  }

  /** Python's `str.isspace()` for one character: the characters `str.strip()` removes. */
  predicate IsSpace(c: char) {
    var n := c as int;
    n == 0x20 || 0x09 <= n <= 0x0D || 0x1C <= n <= 0x1F || n == 0x85 || n == 0xA0 || n == 0x1680
    || 0x2000 <= n <= 0x200A || n == 0x2028 || n == 0x2029 || n == 0x202F || n == 0x205F || n == 0x3000
  }

  predicate AllSpace(s: string) {
    forall i | 0 <= i < |s| :: IsSpace(s[i])
  }

  /** No whitespace at either end: what `str.strip()` leaves. */
  predicate IsStripped(s: string) {
    s == [] || (!IsSpace(s[0]) && !IsSpace(s[|s| - 1]))
  }

  function StripLeft(s: string): (r: string)
    ensures |r| <= |s| && r == s[|s| - |r|..]
    ensures r == [] || !IsSpace(r[0])
    ensures r == [] <==> AllSpace(s)
  {
    if s != [] && IsSpace(s[0]) then
      assert AllSpace(s[1..]) ==> AllSpace(s) by {
        if AllSpace(s[1..]) {
          forall i | 0 <= i < |s| ensures IsSpace(s[i]) {
            if i > 0 { assert s[i] == s[1..][i - 1]; }
          }
        }
      }
      StripLeft(s[1..])
    else
      s
  }

  function StripRight(s: string): (r: string)
    ensures |r| <= |s| && r == s[..|r|]
    ensures r == [] || !IsSpace(r[|r| - 1])
    ensures r == [] <==> AllSpace(s)
  {
    if s != [] && IsSpace(s[|s| - 1]) then
      var init := s[..|s| - 1];
      assert AllSpace(init) ==> AllSpace(s) by {
        if AllSpace(init) {
          forall i | 0 <= i < |s| ensures IsSpace(s[i]) {
            if i < |s| - 1 { assert s[i] == init[i]; }
          }
        }
      }
      StripRight(init)
    else
      s
  }

  /** Python's `s.strip()`: the middle of `s` with the whitespace at both ends removed. */
  function Strip(s: string): (r: string)
    ensures IsStripped(r)
    ensures r == [] <==> AllSpace(s)
    ensures IsStripped(s) ==> r == s
    ensures forall c | c in r :: c in s
  {
    var l := StripLeft(s);
    StripMiddle(s, l, StripRight(l));
    StripRight(l)
  }

  lemma StripMiddle(s: string, l: string, r: string)
    requires l == StripLeft(s) && r == StripRight(l)
    ensures IsStripped(r)
    ensures r == [] <==> AllSpace(s)
    ensures IsStripped(s) ==> r == s
    ensures forall c | c in r :: c in s
  {
    StripMiddleEnds(s, l, r);
    StripMiddleChars(s, l, r);
    if IsStripped(s) {
      StripOfStripped(s);
    }
  }

  lemma StripOfStripped(s: string)
    requires IsStripped(s)
    ensures StripLeft(s) == s && StripRight(s) == s
  {
  }

  lemma StripMiddleEnds(s: string, l: string, r: string)
    requires l == StripLeft(s) && r == StripRight(l)
    ensures IsStripped(r)
    ensures r == [] <==> AllSpace(s)
  {
    if l != [] {
      assert !IsSpace(l[0]);
      assert !AllSpace(l);
      if r != [] {
        assert r[0] == l[0];
      }
    }
  }

  lemma StripMiddleChars(s: string, l: string, r: string)
    requires l == StripLeft(s) && r == StripRight(l)
    ensures forall c | c in r :: c in s
  {
    var k := |s| - |l|;
    forall j | 0 <= j < |r| ensures r[j] in s {
      assert r[j] == l[j] == s[k + j];
    }
  }

  lemma StripKeepsOutChar(s: string, c: char)
    requires c !in s
    ensures c !in Strip(s)
  {
  }

  /** ASCII case folding of one character. */
  function LowerChar(c: char): char {
    if 'A' <= c <= 'Z' then (c as int + 32) as char else c
  }

  predicate IsLowerCase(s: string) {
    forall i | 0 <= i < |s| :: !('A' <= s[i] <= 'Z')
  }

  /** Python's `s.lower()`, restricted to the ASCII letters. */
  function Lower(s: string): (r: string)
    ensures |r| == |s| && IsLowerCase(r)
    ensures IsLowerCase(s) ==> r == s
  {
    seq(|s|, i requires 0 <= i < |s| => LowerChar(s[i]))
  }

  lemma LowerConcat(a: string, b: string)
    ensures Lower(a + b) == Lower(a) + Lower(b)
  {
  }

  /** Python's `s.startswith(p)`. */
  predicate StartsWith(s: string, p: string) {
    |p| <= |s| && s[..|p|] == p
  }

  /** Python's `p in s` on strings. */
  predicate Contains(s: string, p: string)
    decreases |s|
  {
    StartsWith(s, p) || (s != [] && Contains(s[1..], p))
  }

  /** Python's `s.split(sep)` for a single-character separator: never empty. */
  function Split(s: string, sep: char): (r: seq<string>)
    ensures |r| >= 1
    ensures forall i | 0 <= i < |r| :: sep !in r[i]
    decreases |s|
  {
    if s == [] then [""]
    else if s[0] == sep then [""] + Split(s[1..], sep)
    else
      var rest := Split(s[1..], sep);
      [[s[0]] + rest[0]] + rest[1..]
  }

  /** Python's `sep.join(xs)`. */
  function Join(xs: seq<string>, sep: char): string
    decreases |xs|
  {
    if xs == [] then ""
    else if |xs| == 1 then xs[0]
    else xs[0] + [sep] + Join(xs[1..], sep)
  }

  lemma {:induction false} SplitNoSepPrefix(x: string, t: string, sep: char)
    requires sep !in x
    ensures Split(x + t, sep) == [x + Split(t, sep)[0]] + Split(t, sep)[1..]
    decreases |x|
  {
    if x == [] {
      assert x + t == t;
      var st := Split(t, sep);
      assert x + st[0] == st[0];
      assert [st[0]] + st[1..] == st;
    } else {
      assert (x + t)[1..] == x[1..] + t;
      SplitNoSepPrefix(x[1..], t, sep);
      assert [x[0]] + (x[1..] + Split(t, sep)[0]) == x + Split(t, sep)[0];
    }
  }

  /** A piece without the separator, then the separator: the piece comes first, then the rest's pieces. */
  lemma SplitCons(x: string, t: string, sep: char)
    requires sep !in x
    ensures Split(x + [sep] + t, sep) == [x] + Split(t, sep)
  {
    var tail := [sep] + t;
    assert x + [sep] + t == x + tail;
    SplitNoSepPrefix(x, tail, sep);
    assert tail[0] == sep && tail[1..] == t;
    assert x + "" == x;
  }

  /** A string without the separator is a single piece. */
  lemma SplitNone(x: string, sep: char)
    requires sep !in x
    ensures Split(x, sep) == [x]
  {
    SplitNoSepPrefix(x, "", sep);
    assert x + "" == x;
  }

  /** Splitting a join restores the parts, provided no part holds the separator. */
  lemma {:induction false} SplitJoin(xs: seq<string>, sep: char)
    requires |xs| >= 1
    requires forall i | 0 <= i < |xs| :: sep !in xs[i]
    ensures Split(Join(xs, sep), sep) == xs
    decreases |xs|
  {
    if |xs| == 1 {
      SplitNoSepPrefix(xs[0], "", sep);
      assert xs[0] + "" == xs[0];
    } else {
      var tail := [sep] + Join(xs[1..], sep);
      assert Join(xs, sep) == xs[0] + tail;
      SplitNoSepPrefix(xs[0], tail, sep);
      assert tail[0] == sep && tail[1..] == Join(xs[1..], sep);
      SplitJoin(xs[1..], sep);
      assert Split(tail, sep) == [""] + xs[1..];
      assert xs[0] + "" == xs[0];
      assert [xs[0]] + xs[1..] == xs;
    }
  }

  function DigitChar(d: nat): char
    requires d < 10
  {
    "0123456789"[d]
  }

  function NatToString(n: nat): (r: string)
    ensures |r| >= 1
  {
    if n < 10 then [DigitChar(n)] else NatToString(n / 10) + [DigitChar(n % 10)]
  }

  /** Python's `str(i)` for an integer. */
  function IntToString(i: int): string {
    if i < 0 then "-" + NatToString(-i) else NatToString(i)
  }
}
