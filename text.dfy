/** String helpers with Python's semantics: `str.isspace`, `str.strip`, slicing `s[:n]`, and `in` / `find` on substrings. */
module Text {
  import opened Wrappers

  /** The characters for which Python's `str.isspace()` holds (and which `str.strip()` removes). */
  predicate IsSpace(c: char) {
    || c == ' '
    || ('\t' <= c <= '\r')            // \t \n \v \f \r
    || ('\U{1C}' <= c <= '\U{1F}')    // file, group, record and unit separators
    || c == '\U{85}' || c == '\U{A0}' || c == '\U{1680}'
    || ('\U{2000}' <= c <= '\U{200A}')
    || c == '\U{2028}' || c == '\U{2029}' || c == '\U{202F}' || c == '\U{205F}' || c == '\U{3000}'
  }

  /** Drops the leading characters that satisfy `sp`; the result is a suffix of `s`. */
  function StripLeftBy(sp: char -> bool, s: string): (r: string)
    ensures |r| <= |s| && r == s[|s| - |r|..]
    ensures forall k :: 0 <= k < |s| - |r| ==> sp(s[k])
    ensures r != [] ==> !sp(r[0])
  {
    if s != [] && sp(s[0]) then
      var r := StripLeftBy(sp, s[1..]);
      assert s[1..][|s| - 1 - |r|..] == s[|s| - |r|..];
      r
    else s
  }

  /** Drops the trailing characters that satisfy `sp`; the result is a prefix of `s`. */
  function StripRightBy(sp: char -> bool, s: string): (r: string)
    ensures |r| <= |s| && r == s[..|r|]
    ensures forall k :: |r| <= k < |s| ==> sp(s[k])
    ensures r != [] ==> !sp(r[|r| - 1])
  {
    if s != [] && sp(s[|s| - 1]) then
      var r := StripRightBy(sp, s[..|s| - 1]);
      assert s[..|s| - 1][..|r|] == s[..|r|];
      r
    else s
  }

  /** How many characters stripping by `sp` removes from the front. */
  function LeadingBy(sp: char -> bool, s: string): nat {
    |s| - |StripLeftBy(sp, s)|
  }

  /** The infix of `s` left after removing the characters that satisfy `sp` at both ends. */
  function StripBy(sp: char -> bool, s: string): (r: string)
    ensures LeadingBy(sp, s) + |r| <= |s| && r == s[LeadingBy(sp, s)..LeadingBy(sp, s) + |r|]
    ensures forall k :: 0 <= k < LeadingBy(sp, s) ==> sp(s[k])
    ensures forall k :: LeadingBy(sp, s) + |r| <= k < |s| ==> sp(s[k])
    ensures r != [] ==> !sp(r[0]) && !sp(r[|r| - 1])
  {
    StripRightBy(sp, StripLeftBy(sp, s))
  }

  /** A string that neither starts nor ends with a stripped character is left as it is. */
  lemma StripByKeepsTrimmed(sp: char -> bool, s: string)
    requires s != [] && !sp(s[0]) && !sp(s[|s| - 1])
    ensures StripBy(sp, s) == s
  {
    assert StripLeftBy(sp, s) == s;
  }

  /** Stripping twice is stripping once. */
  lemma StripByIdempotent(sp: char -> bool, s: string)
    ensures StripBy(sp, StripBy(sp, s)) == StripBy(sp, s)
  {
    var r := StripBy(sp, s);
    if r != [] {
      StripByKeepsTrimmed(sp, r);
    }
  }

  /** `s.strip()` */
  function Strip(s: string): string {
    StripBy(IsSpace, s)
  }

  /** `not s or len(s.strip()) == 0` */
  predicate IsBlank(s: string) {
    |Strip(s)| == 0
  }

  /** A string is blank exactly when every character in it is whitespace. */
  lemma BlankIffAllSpace(s: string)
    ensures IsBlank(s) <==> forall k :: 0 <= k < |s| ==> IsSpace(s[k])
  {
    if !IsBlank(s) {
      var r := Strip(s);
      assert s[LeadingBy(IsSpace, s)] == r[0];
    }
  }

  /** `s.strip().strip() == s.strip()` */
  lemma StripIdempotent(s: string)
    ensures Strip(Strip(s)) == Strip(s)
  {
    StripByIdempotent(IsSpace, s);
  }

  /** Python's slice `s[:n]` for a non-negative `n`. */
  function Take<T>(s: seq<T>, n: nat): (r: seq<T>)
    ensures r <= s && |r| == if |s| < n then |s| else n
  {
    if |s| < n then s else s[..n]
  }

  /** `pat` occurs in `s` starting at index `k`. */
  predicate OccursAt(s: string, pat: string, k: int) {
    0 <= k && k + |pat| <= |s| && s[k..k + |pat|] == pat
  }

  /** Python's `pat in s`. */
  ghost predicate Contains(s: string, pat: string) {
    exists k :: OccursAt(s, pat, k)
  }

  /** Python's `s.find(pat)` (as `None` for -1): the first index at which `pat` occurs. */
  function IndexOf(s: string, pat: string): (r: Option<nat>)
    ensures r.Some? ==> OccursAt(s, pat, r.value)
    ensures r.Some? ==> forall k :: 0 <= k < r.value ==> !OccursAt(s, pat, k)
    ensures r.None? ==> forall k :: !OccursAt(s, pat, k)
  {
    IndexFrom(s, pat, 0)
  }

  /** The first occurrence of `pat` in `s` at or after `i`. */
  function IndexFrom(s: string, pat: string, i: nat): (r: Option<nat>)
    requires forall k :: 0 <= k < i ==> !OccursAt(s, pat, k)
    ensures r.Some? ==> OccursAt(s, pat, r.value)
    ensures r.Some? ==> forall k :: 0 <= k < r.value ==> !OccursAt(s, pat, k)
    ensures r.None? ==> forall k :: !OccursAt(s, pat, k)
    decreases |s| - i
  {
    if i + |pat| > |s| then None
    else if s[i..i + |pat|] == pat then Some(i)
    else IndexFrom(s, pat, i + 1)
  }
}
