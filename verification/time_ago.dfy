/** The "time ago" label for a Unix timestamp, with the current time passed in. */
module TimeAgo {
  import opened Text
  import opened Values

  const MINUTE: int := 60
  const HOUR: int := 3600
  const DAY: int := 86400

  /**
   * The label for `diff` seconds elapsed. Python's `//` floors; for the positive divisors and
   * non-negative `diff` of the three counting branches Dafny's `/` agrees with it.
   */
  function Label(diff: int): (r: string)
    ensures r != ""
    ensures r == "just now" <==> diff < MINUTE
  {
    if diff < MINUTE then "just now"
    else
      var r :=
        if diff < HOUR then NatToString(diff / MINUTE) + "m ago"
        else if diff < DAY then NatToString(diff / HOUR) + "h ago"
        else NatToString(diff / DAY) + "d ago";
      assert r[|r| - 1] != "just now"[7];
      r
  }

  /**
   * `format_time_ago(timestamp)` of the shared utilities: an int (or bool) or a digit string is
   * a timestamp; any other input gives "".
   */
  function FormatTimeAgo(timestamp: Value, now: int): (r: string)
    ensures timestamp.StrVal? && !IsDigits(timestamp.s) ==> r == ""
    ensures timestamp.NoneVal? || timestamp.OtherVal? ==> r == ""
    ensures r != "" <==> timestamp.IntVal? || timestamp.BoolVal? || (timestamp.StrVal? && IsDigits(timestamp.s))
    ensures timestamp.IntVal? ==> r == Label(now - timestamp.i)
    ensures timestamp.BoolVal? ==> r == Label(now - (if timestamp.b then 1 else 0))
    ensures timestamp.StrVal? && IsDigits(timestamp.s) ==> r == Label(now - DigitsValue(timestamp.s))
  {
    if timestamp.IntVal? || timestamp.BoolVal? || (timestamp.StrVal? && IsDigits(timestamp.s)) then
      Label(now - GetIntValue(timestamp, 0))
    else ""
  }

  /**
   * The `format_time_ago` method of the second app: it subtracts without converting, so only
   * an int (or bool) works; anything else raises a `TypeError`, caught as "".
   */
  function FormatTimeAgoInt(timestamp: Value, now: int): (r: string)
    ensures r == "" <==> !(timestamp.IntVal? || timestamp.BoolVal?)
    ensures timestamp.IntVal? ==> r == Label(now - timestamp.i)
    ensures timestamp.BoolVal? ==> r == Label(now - (if timestamp.b then 1 else 0))
  {
    if timestamp.IntVal? || timestamp.BoolVal? then Label(now - GetIntValue(timestamp, 0)) else ""
  }

  lemma SuffixDiffers(a: string, b: string, sa: string, sb: string)
    requires |sa| == |sb| > 0 && sa[0] != sb[0]
    ensures a + sa != b + sb
  {
    assert (a + sa)[|a|] == sa[0];
    assert (b + sb)[|b|] == sb[0];
  }

  lemma NotJustNow(n: nat, suffix: string)
    ensures NatToString(n) + suffix != "just now"
  {
    assert (NatToString(n) + suffix)[0] == NatToString(n)[0];
    assert !IsDigit("just now"[0]);
  }

  /** "just now" is the label exactly of differences under a minute, negative ones included. */
  lemma JustNowBelowAMinute(diff: int)
    ensures Label(diff) == "just now" <==> diff < MINUTE
  {
    if diff >= MINUTE {
      if diff < HOUR {
        NotJustNow(diff / MINUTE, "m ago");
      } else if diff < DAY {
        NotJustNow(diff / HOUR, "h ago");
      } else {
        NotJustNow(diff / DAY, "d ago");
      }
    }
  }

  /** Reading a minutes label back: "{n}m ago" means n whole minutes, 1 to 59 of them. */
  lemma MinutesLabel(diff: int, n: nat)
    ensures Label(diff) == NatToString(n) + "m ago" <==>
            MINUTE <= diff < HOUR && MINUTE * n <= diff < MINUTE * (n + 1)
    ensures Label(diff) == NatToString(n) + "m ago" ==> 1 <= n <= 59
  {
    if diff < MINUTE {
      NotJustNow(n, "m ago");
    } else if diff < HOUR {
      NatToStringInjective(diff / MINUTE, n);
    } else if diff < DAY {
      SuffixDiffers(NatToString(diff / HOUR), NatToString(n), "h ago", "m ago");
    } else {
      SuffixDiffers(NatToString(diff / DAY), NatToString(n), "d ago", "m ago");
    }
  }

  /** Reading an hours label back: "{n}h ago" means n whole hours, 1 to 23 of them. */
  lemma HoursLabel(diff: int, n: nat)
    ensures Label(diff) == NatToString(n) + "h ago" <==>
            HOUR <= diff < DAY && HOUR * n <= diff < HOUR * (n + 1)
    ensures Label(diff) == NatToString(n) + "h ago" ==> 1 <= n <= 23
  {
    if diff < MINUTE {
      NotJustNow(n, "h ago");
    } else if diff < HOUR {
      SuffixDiffers(NatToString(diff / MINUTE), NatToString(n), "m ago", "h ago");
    } else if diff < DAY {
      NatToStringInjective(diff / HOUR, n);
    } else {
      SuffixDiffers(NatToString(diff / DAY), NatToString(n), "d ago", "h ago");
    }
  }

  /** Reading a days label back: "{n}d ago" means n whole days, at least one. */
  lemma DaysLabel(diff: int, n: nat)
    ensures Label(diff) == NatToString(n) + "d ago" <==> DAY <= diff && DAY * n <= diff < DAY * (n + 1)
    ensures Label(diff) == NatToString(n) + "d ago" ==> 1 <= n
  {
    if diff < MINUTE {
      NotJustNow(n, "d ago");
    } else if diff < HOUR {
      SuffixDiffers(NatToString(diff / MINUTE), NatToString(n), "m ago", "d ago");
    } else if diff < DAY {
      SuffixDiffers(NatToString(diff / HOUR), NatToString(n), "h ago", "d ago");
    } else {
      NatToStringInjective(diff / DAY, n);
    }
  }

  /** The two variants agree on ints and differ on digit strings, which only the shared one reads. */
  lemma VariantsDifferOnDigitStrings(v: Value, now: int)
    requires v.StrVal? && IsDigits(v.s)
    ensures FormatTimeAgo(v, now) == Label(now - DigitsValue(v.s))
    ensures FormatTimeAgoInt(v, now) == ""
  {
  }

  /**
   * Wherever the shared function finds a timestamp it reads it as `get_int_value` does, and
   * the hn method, where it gives a label at all, gives the same one.
   */
  lemma VariantsAgreeOnInts(timestamp: Value, now: int)
    ensures FormatTimeAgo(timestamp, now) != "" ==> FormatTimeAgo(timestamp, now) == Label(now - GetIntValue(timestamp, 0))
    ensures FormatTimeAgoInt(timestamp, now) != "" ==> FormatTimeAgoInt(timestamp, now) == FormatTimeAgo(timestamp, now)
  {
  }
}
