/** String helpers with Python's `str` semantics, restricted to ASCII. */
module Text {

  predicate IsDigit(c: char)
  {
    '0' <= c <= '9'
  }

  predicate AllDigits(s: string)
  {
    forall i :: 0 <= i < |s| ==> IsDigit(s[i])
  }

  /** `str.isdigit()` on ASCII text: non-empty and every character a decimal digit. */
  predicate IsDigits(s: string)
  {
    |s| > 0 && AllDigits(s)
  }

  function DigitValue(c: char): nat
    requires IsDigit(c)
  {
    (c as int) - ('0' as int)
  }

  function DigitChar(d: nat): (c: char)
    requires d < 10
    ensures IsDigit(c) && DigitValue(c) == d
  {
    (('0' as int) + d) as char
  }

  /** `int(s)` for a string of decimal digits, most significant digit first. */
  function DigitsValue(s: string): nat
    requires AllDigits(s)
    decreases |s|
  {
    if |s| == 0 then 0 else 10 * DigitsValue(s[..|s| - 1]) + DigitValue(s[|s| - 1])
  }

  /** `str(n)` for a non-negative int: the shortest decimal spelling, read back by `int()`. */
  function NatToString(n: nat): (r: string)
    ensures IsDigits(r)
    ensures DigitsValue(r) == n
    ensures r[0] == '0' ==> n == 0
    decreases n
  {
    if n < 10 then [DigitChar(n)]
    else
      var r := NatToString(n / 10) + [DigitChar(n % 10)];
      assert r[..|r| - 1] == NatToString(n / 10);
      r
  }

  /** `str(i)` for any int. */
  function IntToString(i: int): string
  {
    if i < 0 then "-" + NatToString(-i) else NatToString(i)
  }

  /** Two decimal spellings produced by `str` are equal exactly when the numbers are. */
  lemma NatToStringInjective(a: nat, b: nat)
    ensures NatToString(a) == NatToString(b) <==> a == b
  {
    if NatToString(a) == NatToString(b) {
      assert DigitsValue(NatToString(a)) == DigitsValue(NatToString(b));
    }
  }

  /** Characters `str.strip()` removes, restricted to ASCII (`\t` to `\r`, `\x1c` to `\x1f` and the space). */
  predicate IsSpace(c: char)
  {
    9 <= c as int <= 13 || 28 <= c as int <= 32
  }

  /** Number of leading whitespace characters. */
  function LeadingSpaces(s: string): (n: nat)
    ensures n <= |s|
    ensures forall i :: 0 <= i < n ==> IsSpace(s[i])
    ensures n < |s| ==> !IsSpace(s[n])
    decreases |s|
  {
    if |s| == 0 || !IsSpace(s[0]) then 0 else 1 + LeadingSpaces(s[1..])
  }

  /** Number of trailing whitespace characters. */
  function TrailingSpaces(s: string): (n: nat)
    ensures n <= |s|
    ensures forall i :: |s| - n <= i < |s| ==> IsSpace(s[i])
    ensures n < |s| ==> !IsSpace(s[|s| - n - 1])
    decreases |s|
  {
    if |s| == 0 || !IsSpace(s[|s| - 1]) then 0 else 1 + TrailingSpaces(s[..|s| - 1])
  }

  /** `str.strip()`: the longest infix that neither starts nor ends with whitespace. */
  function Strip(s: string): (r: string)
    ensures |r| <= |s|
    ensures |r| > 0 ==> !IsSpace(r[0]) && !IsSpace(r[|r| - 1])
    ensures LeadingSpaces(s) + |r| <= |s|
    ensures r == s[LeadingSpaces(s)..LeadingSpaces(s) + |r|]
    ensures forall i :: LeadingSpaces(s) + |r| <= i < |s| ==> IsSpace(s[i])
  {
    var n := LeadingSpaces(s);
    var t := s[n..];
    var r := t[..|t| - TrailingSpaces(t)];
    assert r == s[n..n + |r|];
    assert forall i :: n + |r| <= i < |s| ==> s[i] == t[i - n];
    r
  }

  /** Stripping twice strips nothing more. */
  lemma StripIdempotent(s: string)
    ensures Strip(Strip(s)) == Strip(s)
  {
    var r := Strip(s);
    assert LeadingSpaces(r) == 0;
    assert TrailingSpaces(r) == 0;
  }

  /** Leading whitespace that is dropped first is still counted as leading whitespace. */
  lemma {:induction false} LeadingSpacesDrop(t: string, k: nat)
    requires k <= |t|
    requires forall i :: 0 <= i < k ==> IsSpace(t[i])
    ensures LeadingSpaces(t) == k + LeadingSpaces(t[k..])
    decreases k
  {
    if k == 0 {
      assert t[0..] == t;
    } else {
      assert IsSpace(t[0]);
      LeadingSpacesDrop(t[1..], k - 1);
      assert t[1..][k - 1..] == t[k..];
    }
  }

  /** Stripping after dropping some leading whitespace gives the same as stripping at once. */
  lemma StripDrop(t: string, k: nat)
    requires k <= |t|
    requires forall i :: 0 <= i < k ==> IsSpace(t[i])
    ensures Strip(t[k..]) == Strip(t)
  {
    LeadingSpacesDrop(t, k);
    assert t[k..][LeadingSpaces(t[k..])..] == t[LeadingSpaces(t)..];
  }

  /**
   * Stripping text that ends in a word with no edge whitespace removes only leading
   * whitespace, all of it in front of the word.
   */
  lemma StripBeforeSuffix(t: string, w: string) returns (k: nat)
    requires |w| > 0 && !IsSpace(w[0]) && !IsSpace(w[|w| - 1])
    ensures k <= |t| && Strip(t + w) == t[k..] + w
    ensures forall i :: 0 <= i < k ==> IsSpace(t[i])
  {
    var text := t + w;
    k := LeadingSpaces(text);
    assert text[|t|] == w[0];
    var stripped := Strip(text);
    assert text[|text| - 1] == w[|w| - 1];
    assert k + |stripped| == |text|;
    assert text[k..] == t[k..] + w;
    forall i | 0 <= i < k
      ensures IsSpace(t[i])
    {
      assert t[i] == text[i];
    }
  }

  /** `s` consists of whitespace only. */
  predicate AllSpaces(s: string)
  {
    forall i :: 0 <= i < |s| ==> IsSpace(s[i])
  }

  /** Stripping whitespace padding around a word with no edge whitespace gives back the word. */
  lemma StripPadded(pre: string, w: string, post: string)
    requires AllSpaces(pre) && AllSpaces(post)
    requires |w| > 0 && !IsSpace(w[0]) && !IsSpace(w[|w| - 1])
    ensures Strip(pre + w + post) == w
  {
    var x := pre + w + post;
    var n := LeadingSpaces(x);
    assert x[|pre|] == w[0];
    assert n == |pre|;
    var r := Strip(x);
    var last := |pre| + |w| - 1;
    assert x[last] == w[|w| - 1];
    assert n + |r| > last;
    assert |r| == |w|;
    assert x[|pre|..|pre| + |w|] == w;
  }

  /** A digit string has no whitespace to strip. */
  lemma StripDigits(s: string)
    ensures IsDigits(s) ==> Strip(s) == s
  {
    if IsDigits(s) {
      assert !IsSpace(s[0]) && LeadingSpaces(s) == 0;
      assert !IsSpace(s[|s| - 1]);
    }
  }

  /** `sub` occurs in `s` starting at index `i`. */
  predicate OccursAt(s: string, sub: string, i: int)
  {
    0 <= i && i + |sub| <= |s| && s[i..i + |sub|] == sub
  }

  /** Python's `sub in s`. */
  predicate Contains(s: string, sub: string)
  {
    exists i :: 0 <= i <= |s| && OccursAt(s, sub, i)
  }

  /** `s.find(sub, start)`: the first occurrence at or after `start`, or -1. */
  function Find(s: string, sub: string, start: nat): (r: int)
    ensures r == -1 || (start <= r && OccursAt(s, sub, r))
    ensures r == -1 ==> forall i :: start <= i ==> !OccursAt(s, sub, i)
    ensures r != -1 ==> forall i :: start <= i < r ==> !OccursAt(s, sub, i)
    decreases |s| - start
  {
    if start + |sub| > |s| then -1
    else if OccursAt(s, sub, start) then start
    else Find(s, sub, start + 1)
  }

  /** `s.replace(pat, rep)` for a non-empty `pat`: leftmost, non-overlapping replacement. */
  function ReplaceAll(s: string, pat: string, rep: string): (r: string)
    requires |pat| > 0
    ensures |rep| <= |pat| ==> |r| <= |s|
    ensures |rep| == |pat| ==> |r| == |s|
    decreases |s|
  {
    if |s| < |pat| then s
    else if s[..|pat|] == pat then rep + ReplaceAll(s[|pat|..], pat, rep)
    else [s[0]] + ReplaceAll(s[1..], pat, rep)
  }

  /** Where the pattern does not occur, nothing is replaced. */
  lemma {:induction false} ReplaceAbsent(s: string, pat: string, rep: string)
    requires |pat| > 0
    ensures !Contains(s, pat) ==> ReplaceAll(s, pat, rep) == s
    decreases |s|
  {
    if |s| >= |pat| && !Contains(s, pat) {
      assert s[..|pat|] != pat by {
        assert !OccursAt(s, pat, 0);
      }
      assert !Contains(s[1..], pat) by {
        if Contains(s[1..], pat) {
          var i :| 0 <= i <= |s[1..]| && OccursAt(s[1..], pat, i);
          assert s[i + 1..i + 1 + |pat|] == s[1..][i..i + |pat|];
          assert OccursAt(s, pat, i + 1);
        }
      }
      ReplaceAbsent(s[1..], pat, rep);
      assert s == [s[0]] + s[1..];
    }
  }

  /** Replacing a pattern by itself changes nothing. */
  lemma {:induction false} ReplaceSelf(s: string, pat: string)
    requires |pat| > 0
    ensures ReplaceAll(s, pat, pat) == s
    decreases |s|
  {
    if |s| < |pat| {
    } else if s[..|pat|] == pat {
      ReplaceSelf(s[|pat|..], pat);
      assert s == pat + s[|pat|..];
    } else {
      ReplaceSelf(s[1..], pat);
      assert s == [s[0]] + s[1..];
    }
  }

  /** An occurrence in `s[1..]` is an occurrence in `s` one place later. */
  lemma OccursShift(s: string, pat: string, i: nat)
    requires |s| > 0
    ensures OccursAt(s[1..], pat, i) <==> OccursAt(s, pat, i + 1)
  {
    if i + |pat| <= |s[1..]| {
      assert s[1..][i..i + |pat|] == s[i + 1..i + 1 + |pat|];
    }
  }

  /** Where `pat` does not start, `replace` copies one character and goes on. */
  lemma ReplaceSkip(s: string, pat: string, rep: string)
    requires |pat| > 0 && |s| >= |pat| && s[..|pat|] != pat
    ensures ReplaceAll(s, pat, rep) == [s[0]] + ReplaceAll(s[1..], pat, rep)
  {
  }

  /** Where `pat` starts, `replace` writes `rep` and goes on after it. */
  lemma ReplaceHere(s: string, pat: string, rep: string)
    requires |pat| > 0 && |s| >= |pat| && s[..|pat|] == pat
    ensures ReplaceAll(s, pat, rep) == rep + ReplaceAll(s[|pat|..], pat, rep)
  {
  }

  /** No occurrence before `p` in `s` means none before `p - 1` in `s[1..]`. */
  lemma NoEarlierShift(s: string, pat: string, p: nat)
    requires 0 < p <= |s|
    requires forall i :: 0 <= i < p ==> !OccursAt(s, pat, i)
    ensures forall i :: 0 <= i < p - 1 ==> !OccursAt(s[1..], pat, i)
  {
    forall i | 0 <= i < p - 1
      ensures !OccursAt(s[1..], pat, i)
    {
      OccursShift(s, pat, i);
    }
  }

  /** One copied character in front of a replacement that starts at `p - 1`. */
  lemma ReplaceAfterSkip(s: string, pat: string, rep: string, p: nat)
    requires |pat| > 0 && 0 < p && p + |pat| <= |s| && s[..|pat|] != pat
    requires ReplaceAll(s[1..], pat, rep) == s[1..][..p - 1] + rep + ReplaceAll(s[1..][p - 1 + |pat|..], pat, rep)
    ensures ReplaceAll(s, pat, rep) == s[..p] + rep + ReplaceAll(s[p + |pat|..], pat, rep)
  {
    assert s[1..][p - 1 + |pat|..] == s[p + |pat|..];
    ReplaceSkip(s, pat, rep);
    ConsPrefix(s, p, rep, ReplaceAll(s[p + |pat|..], pat, rep));
  }

  lemma ConsPrefix(s: string, p: nat, rep: string, tail: string)
    requires 0 < p <= |s|
    ensures [s[0]] + (s[1..][..p - 1] + rep + tail) == s[..p] + rep + tail
  {
    assert s[..p] == [s[0]] + s[1..][..p - 1];
  }

  /** Replacing starts at the first occurrence: the text before it is kept as it is. */
  lemma {:induction false} ReplaceFromFirst(s: string, pat: string, rep: string, p: nat)
    requires |pat| > 0 && OccursAt(s, pat, p)
    requires forall i :: 0 <= i < p ==> !OccursAt(s, pat, i)
    ensures ReplaceAll(s, pat, rep) == s[..p] + rep + ReplaceAll(s[p + |pat|..], pat, rep)
    decreases p
  {
    if p == 0 {
      assert s[..|pat|] == s[0..0 + |pat|];
      ReplaceHere(s, pat, rep);
      assert s[..0] + rep == rep;
    } else {
      assert s[..|pat|] != pat by {
        assert !OccursAt(s, pat, 0);
        assert s[..|pat|] == s[0..0 + |pat|];
      }
      NoEarlierShift(s, pat, p);
      OccursShift(s, pat, p - 1);
      ReplaceFromFirst(s[1..], pat, rep, p - 1);
      ReplaceAfterSkip(s, pat, rep, p);
    }
  }

  /** `Find` returns the first occurrence. */
  lemma FindFirst(s: string, sub: string, start: nat, p: nat)
    requires start <= p && OccursAt(s, sub, p)
    requires forall i :: start <= i < p ==> !OccursAt(s, sub, i)
    ensures Find(s, sub, start) == p
  {
  }

  /** An occurrence of `a + b` is an occurrence of `a`. */
  lemma OccursPrefix(s: string, a: string, b: string, i: int)
    requires OccursAt(s, a + b, i)
    ensures OccursAt(s, a, i)
  {
    assert s[i..i + |a|] == (a + b)[..|a|];
  }

  /** Two strings that agree up to `n` have the same occurrences ending by `n`. */
  lemma OccursInCommonPrefix(s: string, t: string, pat: string, n: nat, i: nat)
    requires n <= |s| && n <= |t| && s[..n] == t[..n]
    requires i + |pat| <= n
    ensures OccursAt(s, pat, i) <==> OccursAt(t, pat, i)
  {
    assert s[i..i + |pat|] == s[..n][i..i + |pat|];
    assert t[i..i + |pat|] == t[..n][i..i + |pat|];
  }

  /** An occurrence of `a + b + c` is `a`, then `b`, then `c`. */
  lemma SplitOccurrence(t: string, p: nat, a: string, b: string, c: string)
    requires OccursAt(t, a + b + c, p)
    ensures OccursAt(t, a, p)
    ensures p + |a| + |b| <= |t| && t[p + |a|..p + |a| + |b|] == b
    ensures OccursAt(t, c, p + |a| + |b|)
  {
    var w := a + b + c;
    assert t[p..p + |w|] == w;
    var u := t[p..p + |w|];
    assert t[p..p + |a|] == u[..|a|] == w[..|a|];
    var v := t[p + |a|..p + |a| + |b|];
    assert forall k :: 0 <= k < |b| ==> v[k] == u[|a| + k];
    assert v == u[|a|..|a| + |b|] == w[|a|..|a| + |b|] == b;
    assert t[p + |a| + |b|..p + |w|] == u[|a| + |b|..] == w[|a| + |b|..] == c;
  }

  /** No quote starts inside a quote-free stretch of `t`. */
  lemma NoQuoteIn(t: string, start: nat, prefix: string)
    requires start + |prefix| <= |t| && t[start..start + |prefix|] == prefix
    requires '"' !in prefix
    ensures forall i :: start <= i < start + |prefix| ==> !OccursAt(t, "\"", i)
  {
    forall i | start <= i < start + |prefix|
      ensures !OccursAt(t, "\"", i)
    {
      assert t[i] == prefix[i - start];
      assert t[i..i + 1] == [t[i]];
    }
  }

  /** `s.replace(pat, '')`; with an empty `pat` Python returns `s` unchanged. */
  function RemoveAll(s: string, pat: string): (r: string)
    ensures |r| <= |s|
    ensures !Contains(s, pat) ==> r == s
  {
    if |pat| == 0 then s else RemoveLen(s, pat); ReplaceAbsent(s, pat, ""); ReplaceAll(s, pat, "")
  }

  /** Removing a pattern that occurs only at the very end leaves the text before it. */
  lemma RemoveOnlyOccurrence(u: string, pat: string)
    requires |pat| > 0
    requires forall i :: 0 <= i < |u| ==> !OccursAt(u + pat, pat, i)
    ensures RemoveAll(u + pat, pat) == u
  {
    var s := u + pat;
    assert s[|u|..|u| + |pat|] == pat;
    ReplaceFromFirst(s, pat, "", |u|);
    assert s[|u| + |pat|..] == "";
    assert s[..|u|] == u;
  }

  lemma {:induction false} RemoveLen(s: string, pat: string)
    requires |pat| > 0
    ensures |ReplaceAll(s, pat, "")| <= |s|
    decreases |s|
  {
    if |s| < |pat| {
    } else if s[..|pat|] == pat {
      RemoveLen(s[|pat|..], pat);
    } else {
      RemoveLen(s[1..], pat);
    }
  }

  /** `s.split(sep)` for a one-character separator. */
  function Split(s: string, sep: char): (parts: seq<string>)
    ensures |parts| >= 1
    ensures forall i :: 0 <= i < |parts| ==> sep !in parts[i]
    decreases |s|
  {
    if |s| == 0 then [""]
    else if s[0] == sep then [""] + Split(s[1..], sep)
    else
      var rest := Split(s[1..], sep);
      [[s[0]] + rest[0]] + rest[1..]
  }

  /** `sep.join(parts)`. */
  function Join(parts: seq<string>, sep: char): string
    requires |parts| >= 1
    decreases |parts|
  {
    if |parts| == 1 then parts[0] else parts[0] + [sep] + Join(parts[1..], sep)
  }

  /** Joining the first `k` pieces gives a prefix of joining them all. */
  lemma {:induction false} JoinPrefix(parts: seq<string>, k: nat, sep: char)
    requires 1 <= k <= |parts|
    ensures Join(parts[..k], sep) <= Join(parts, sep)
    decreases k
  {
    if k == |parts| {
      assert parts[..k] == parts;
    } else if k == 1 {
      assert parts[..1] == [parts[0]];
    } else {
      JoinPrefix(parts[1..], k - 1, sep);
      assert parts[..k][1..] == parts[1..][..k - 1];
    }
  }

  /** Joining the pieces of a split gives back the original string. */
  lemma {:induction false} JoinSplit(s: string, sep: char)
    ensures Join(Split(s, sep), sep) == s
    decreases |s|
  {
    if |s| == 0 {
    } else if s[0] == sep {
      JoinSplit(s[1..], sep);
      assert Split(s, sep)[1..] == Split(s[1..], sep);
      assert s == [sep] + s[1..];
    } else {
      JoinSplit(s[1..], sep);
      var rest := Split(s[1..], sep);
      var parts := Split(s, sep);
      assert parts[1..] == rest[1..];
      if |rest| == 1 {
        assert s == [s[0]] + rest[0];
      } else {
        assert Join(rest, sep) == rest[0] + [sep] + Join(rest[1..], sep);
        assert s == [s[0]] + rest[0] + [sep] + Join(rest[1..], sep);
      }
    }
  }

  /** Splitting a join of separator-free pieces gives back the pieces. */
  lemma {:induction false} SplitJoin(parts: seq<string>, sep: char)
    requires |parts| >= 1
    requires forall i :: 0 <= i < |parts| ==> sep !in parts[i]
    ensures Split(Join(parts, sep), sep) == parts
    decreases |parts|, |parts[0]|
  {
    if |parts[0]| == 0 {
      if |parts| == 1 {
      } else {
        SplitJoin(parts[1..], sep);
        assert Join(parts, sep) == [sep] + Join(parts[1..], sep);
        assert parts == [""] + parts[1..];
      }
    } else {
      var c := parts[0][0];
      var shorter := [parts[0][1..]] + parts[1..];
      SplitJoin(shorter, sep);
      if |parts| == 1 {
        assert Join(parts, sep) == [c] + Join(shorter, sep);
      } else {
        assert Join(shorter, sep) == parts[0][1..] + [sep] + Join(parts[1..], sep);
        assert Join(parts, sep) == [c] + Join(shorter, sep);
      }
      assert Join(parts, sep)[1..] == Join(shorter, sep);
      assert parts[0] == [c] + parts[0][1..];
      assert parts == [[c] + shorter[0]] + shorter[1..];
    }
  }
}
