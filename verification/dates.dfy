/**
 * Calendar dates and the two `strftime` spellings used as URL component (`%Y%m%d`) and cache
 * key (`%Y-%m-%d`): the basic and extended calendar-date formats of ISO 8601:2004,
 * section 4.1.2.2.
 */
module DateFormat {
  import opened Wrappers
  import opened Text

  datatype Date = Date(year: int, month: int, day: int)

  predicate IsLeapYear(y: int)
  {
    y % 4 == 0 && (y % 100 != 0 || y % 400 == 0)
  }

  function DaysInMonth(y: int, m: int): int
  {
    if m == 2 then (if IsLeapYear(y) then 29 else 28)
    else if m == 4 || m == 6 || m == 9 || m == 11 then 30
    else 31
  }

  /** The dates Python's `datetime.date` can represent. */
  predicate ValidDate(d: Date)
  {
    1 <= d.year <= 9999 && 1 <= d.month <= 12 && 1 <= d.day <= DaysInMonth(d.year, d.month)
  }

  function Pow10(n: nat): nat
  {
    if n == 0 then 1 else 10 * Pow10(n - 1)
  }

  /** `n` in decimal, zero-padded to exactly `width` digits (the value must fit). */
  function Pad(n: nat, width: nat): (r: string)
    requires n < Pow10(width)
    ensures |r| == width
    ensures AllDigits(r)
    ensures DigitsValue(r) == n
    decreases width
  {
    if width == 0 then ""
    else
      var r := Pad(n / 10, width - 1) + [DigitChar(n % 10)];
      assert r[..|r| - 1] == Pad(n / 10, width - 1);
      r
  }

  /** `date.strftime("%Y%m%d")`, the URL form. */
  function FormatForUrl(d: Date): (r: string)
    requires ValidDate(d)
    ensures |r| == 8 && AllDigits(r)
  {
    Pad(d.year, 4) + Pad(d.month, 2) + Pad(d.day, 2)
  }

  /** `date.strftime("%Y-%m-%d")`, the cache-key form. */
  function FormatForCacheKey(d: Date): (r: string)
    requires ValidDate(d)
    ensures |r| == 10 && r[4] == '-' && r[7] == '-'
    ensures forall i :: 0 <= i < 10 && i != 4 && i != 7 ==> IsDigit(r[i])
  {
    Pad(d.year, 4) + "-" + Pad(d.month, 2) + "-" + Pad(d.day, 2)
  }

  /** Deletes every `-`. */
  function RemoveDashes(s: string): (r: string)
    decreases |s|
  {
    if |s| == 0 then "" else (if s[0] == '-' then "" else [s[0]]) + RemoveDashes(s[1..])
  }

  lemma {:induction false} RemoveDashesAppend(a: string, b: string)
    ensures RemoveDashes(a + b) == RemoveDashes(a) + RemoveDashes(b)
    decreases |a|
  {
    if |a| == 0 {
      assert a + b == b;
    } else {
      RemoveDashesAppend(a[1..], b);
      assert (a + b)[1..] == a[1..] + b && (a + b)[0] == a[0];
      var h := if a[0] == '-' then "" else [a[0]];
      assert RemoveDashes(a + b) == h + RemoveDashes(a[1..] + b);
      assert RemoveDashes(a) == h + RemoveDashes(a[1..]);
    }
  }

  lemma {:induction false} RemoveDashesDigits(s: string)
    requires AllDigits(s)
    ensures RemoveDashes(s) == s
    decreases |s|
  {
    if |s| > 0 {
      RemoveDashesDigits(s[1..]);
      assert s == [s[0]] + s[1..];
    }
  }

  lemma RemoveDashesJoined(y: string, m: string, dd: string)
    requires AllDigits(y) && AllDigits(m) && AllDigits(dd)
    ensures RemoveDashes(y + "-" + m + "-" + dd) == y + m + dd
  {
    var dash := "-";
    assert RemoveDashes(dash) == "" by {
      assert dash[1..] == "";
    }
    RemoveDashesDigits(y);
    RemoveDashesDigits(m);
    RemoveDashesDigits(dd);
    var a := y + dash;
    RemoveDashesAppend(y, dash);
    assert RemoveDashes(a) == y;
    var b := a + m;
    RemoveDashesAppend(a, m);
    assert RemoveDashes(b) == y + m;
    var c := b + dash;
    RemoveDashesAppend(b, dash);
    assert RemoveDashes(c) == y + m;
    RemoveDashesAppend(c, dd);
    assert RemoveDashes(c + dd) == y + m + dd;
  }

  /** The URL form is the cache key with its dashes deleted. */
  lemma UrlIsKeyWithoutDashes(d: Date)
    requires ValidDate(d)
    ensures RemoveDashes(FormatForCacheKey(d)) == FormatForUrl(d)
  {
    RemoveDashesJoined(Pad(d.year, 4), Pad(d.month, 2), Pad(d.day, 2));
  }

  /** Reads a `YYYY-MM-DD` key back into a date. */
  function ParseCacheKey(k: string): (r: Option<Date>)
  {
    if |k| == 10 && k[4] == '-' && k[7] == '-' && AllDigits(k[..4]) && AllDigits(k[5..7]) && AllDigits(k[8..])
    then Some(Date(DigitsValue(k[..4]), DigitsValue(k[5..7]), DigitsValue(k[8..])))
    else None
  }

  /** Reading a formatted cache key gives back the date. */
  lemma CacheKeyRoundTrip(d: Date)
    requires ValidDate(d)
    ensures ParseCacheKey(FormatForCacheKey(d)) == Some(d)
  {
    var y, m, dd := Pad(d.year, 4), Pad(d.month, 2), Pad(d.day, 2);
    var k := FormatForCacheKey(d);
    assert k[..4] == y;
    assert k[5..7] == m;
    assert k[8..] == dd;
  }

  /** Distinct dates have distinct cache keys, so keying the cache by date loses nothing. */
  lemma CacheKeyInjective(d1: Date, d2: Date)
    requires ValidDate(d1) && ValidDate(d2)
    ensures FormatForCacheKey(d1) == FormatForCacheKey(d2) <==> d1 == d2
  {
    CacheKeyRoundTrip(d1);
    CacheKeyRoundTrip(d2);
  }

  /** Distinct dates have distinct URL forms. */
  lemma UrlInjective(d1: Date, d2: Date)
    requires ValidDate(d1) && ValidDate(d2)
    ensures FormatForUrl(d1) == FormatForUrl(d2) <==> d1 == d2
  {
    UrlIsKeyWithoutDashes(d1);
    UrlIsKeyWithoutDashes(d2);
    if FormatForUrl(d1) == FormatForUrl(d2) {
      var u := FormatForUrl(d1);
      assert u[..4] == Pad(d1.year, 4) == Pad(d2.year, 4);
      assert u[4..6] == Pad(d1.month, 2) == Pad(d2.month, 2);
      assert u[6..] == Pad(d1.day, 2) == Pad(d2.day, 2);
    }
  }
}
