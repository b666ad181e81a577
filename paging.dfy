/**
 * The page arithmetic of the `/search` and `/api/search` routes: reading the `page` argument
 * with Python's `int()`, the clamp to 1 that only `/search` applies, and `total_pages`.
 */
module Paging {
  import opened Wrappers
  import opened Text

  const ResultsPerPage: nat := 10

  predicate IsDigit(c: char) {
    '0' <= c <= '9'
  }

  /** A run of decimal digits, with single underscores allowed between two digits, as `int()` accepts. */
  predicate IsDigitRun(ds: string) {
    && |ds| > 0 && IsDigit(ds[0]) && IsDigit(ds[|ds| - 1])
    && forall k :: 0 <= k < |ds| ==> IsDigit(ds[k]) || (ds[k] == '_' && 0 < k < |ds| - 1 && IsDigit(ds[k + 1]))
  }

  /** The value of a digit run, underscores ignored. */
  function DigitsValue(ds: string): nat
    decreases |ds|
  {
    if ds == [] then 0
    else
      var init, last := ds[..|ds| - 1], ds[|ds| - 1];
      if IsDigit(last) then DigitsValue(init) * 10 + (last as int - '0' as int) else DigitsValue(init)
  }

  /**
   * The whitespace `int()` skips around a number: Python's whitespace, except the four ASCII
   * separators U+001C..U+001F, which the ASCII-only test of the number parser does not skip.
   */
  predicate IsIntSpace(c: char) {
    IsSpace(c) && !('\U{1C}' <= c <= '\U{1F}')
  }

  /** Python's `int(s)` for a string: `None` where it raises `ValueError`. */
  function ParseInt(s: string): (r: Option<int>)
    ensures var t := StripBy(IsIntSpace, s);
      r.Some? ==> |t| > 0 && IsDigit(t[|t| - 1]) && (r.value < 0 ==> t[0] == '-') && (t[0] == '-' ==> r.value <= 0)
  {
    ParseSigned(StripBy(IsIntSpace, s))
  }

  /** An optional sign followed by a digit run. */
  function ParseSigned(t: string): Option<int> {
    if |t| > 0 && (t[0] == '+' || t[0] == '-') then
      var body := t[1..];
      var v: int := DigitsValue(body);
      if IsDigitRun(body) then Some(if t[0] == '-' then -v else v) else None
    else if IsDigitRun(t) then Some(DigitsValue(t))
    else None
  }

  function DigitChar(d: nat): (c: char)
    requires d < 10
    ensures IsDigit(c) && c as int - '0' as int == d
  {
    '0' + d as char
  }

  /** The decimal digits of `n`. */
  function NatStr(n: nat): (s: string)
    ensures |s| > 0
    ensures forall k :: 0 <= k < |s| ==> IsDigit(s[k])
  {
    if n < 10 then [DigitChar(n)] else NatStr(n / 10) + [DigitChar(n % 10)]
  }

  /** Python's `str(n)`. */
  function Str(n: int): string {
    if n < 0 then "-" + NatStr(-n) else NatStr(n)
  }

  lemma {:induction false} NatStrValue(n: nat)
    ensures DigitsValue(NatStr(n)) == n
  {
    var s := NatStr(n);
    if n >= 10 {
      NatStrValue(n / 10);
      assert s[..|s| - 1] == NatStr(n / 10);
    } else {
      assert s[..0] == [];
    }
  }

  /** `int(str(n)) == n`: the parser reads back every integer Python prints. */
  lemma ParseIntRoundTrip(n: int)
    ensures ParseInt(Str(n)) == Some(n)
  {
    var s := Str(n);
    assert !IsIntSpace(s[0]) && !IsIntSpace(s[|s| - 1]);
    StripByKeepsTrimmed(IsIntSpace, s);
    ParseSignedStr(n);
  }

  lemma ParseSignedStr(n: int)
    ensures ParseSigned(Str(n)) == Some(n)
  {
    var m := if n < 0 then -n else n;
    var digits := NatStr(m);
    NatStrValue(m);
    DigitsAreRun(digits);
    var s := Str(n);
    if n < 0 {
      assert s[1..] == digits;
    } else {
      assert !(s[0] == '+' || s[0] == '-');
    }
  }

  lemma DigitsAreRun(ds: string)
    requires |ds| > 0 && forall k :: 0 <= k < |ds| ==> IsDigit(ds[k])
    ensures IsDigitRun(ds)
  {
  }

  /** `int()` ignores surrounding whitespace. */
  lemma ParseIntIgnoresSpace(s: string)
    ensures ParseInt(StripBy(IsIntSpace, s)) == ParseInt(s)
  {
    StripByIdempotent(IsIntSpace, s);
  }

  /** An argument made only of whitespace is not a number. */
  lemma BlankIsNotANumber(s: string)
    requires IsBlank(s)
    ensures ParseInt(s) == None
  {
    BlankIffAllSpace(s);
    var r := StripBy(IsIntSpace, s);
    if r != [] {
      assert r[0] == s[LeadingBy(IsIntSpace, s)];
      assert !IsDigitRun(r) && !IsDigitRun(r[1..]) by {
        assert IsSpace(r[0]);
      }
    }
  }

  /** The four ASCII separators are whitespace to `str.strip()`... */
  lemma SeparatorIsSpace()
    ensures Strip("\U{1F}7") == "7"
  {
    var s := "\U{1F}7";
    assert IsSpace(s[0]) && s[1..] == "7";
    assert StripLeftBy(IsSpace, s) == StripLeftBy(IsSpace, "7");
    StripByKeepsTrimmed(IsSpace, "7");
  }

  /** ...but not to `int()`, which rejects them. */
  lemma SeparatorIsNotIntSpace()
    ensures ParseInt("\U{1F}7") == None
  {
    var s := "\U{1F}7";
    assert !IsIntSpace(s[0]) && !IsIntSpace(s[1]);
    StripByKeepsTrimmed(IsIntSpace, s);
    assert !IsDigit(s[0]) && s[0] != '+' && s[0] != '-';
  }

  /** `request.args.get('page', '1')` */
  function PageArgument(arg: Option<string>): (p: string)
    ensures arg.Some? ==> p == arg.value
    ensures arg.None? ==> ParseInt(p) == Some(1)
  {
    ParseIntRoundTrip(1);
    assert Str(1) == "1";
    arg.GetOr("1")
  }

  /** `/api/search`: `int(page)`, and 1 when that raises. */
  function ApiPage(arg: Option<string>): (page: int)
    ensures ParseInt(PageArgument(arg)).None? ==> page == 1
  {
    match ParseInt(PageArgument(arg))
    case Some(n) => n
    case None => 1
  }

  /** `/search`: the same, and any page below 1 becomes 1. */
  function SearchPage(arg: Option<string>): (page: int)
    ensures page >= 1
    ensures page == if ApiPage(arg) < 1 then 1 else ApiPage(arg)
  {
    var p := ParseInt(PageArgument(arg));
    if p.None? then 1 else if p.value < 1 then 1 else p.value
  }

  /** A missing `page` argument means page 1 on both routes. */
  lemma MissingPageIsFirst()
    ensures ApiPage(None) == 1 && SearchPage(None) == 1
  {
    assert PageArgument(None) == Str(1);
    ParseIntRoundTrip(1);
  }

  /** `/api/search` passes any integer through, zero and negative ones included. */
  lemma ApiPagePassesThrough(n: int)
    ensures ApiPage(Some(Str(n))) == n
  {
    ParseIntRoundTrip(n);
  }

  /** `/search` turns any integer argument `n` into `max(1, n)`. */
  lemma SearchPageClamps(n: int)
    ensures SearchPage(Some(Str(n))) == if n < 1 then 1 else n
  {
    ParseIntRoundTrip(n);
  }

  /** `max(1, (total_results + 9) // 10)`: the number of pages of ten, one at least. */
  function TotalPages(totalResults: nat): (pages: nat)
    ensures pages >= 1
    ensures totalResults > 0 ==> (pages - 1) * ResultsPerPage < totalResults <= pages * ResultsPerPage
    ensures totalResults == 0 ==> pages == 1
  {
    var rounded := (totalResults + 9) / 10;
    if rounded < 1 then 1 else rounded
  }

  /** With at most ten results from `search`, the result page always reports a single page. */
  lemma OnePageOfResults(totalResults: nat)
    requires totalResults <= 10
    ensures TotalPages(totalResults) == 1
  {
  }
}
