/**
 * The string logic of the release script: reading `MAJOR.MINOR.PATCH`, incrementing it as
 * items 6 to 8 of Semantic Versioning 2.0.0 prescribe, and rewriting the `User-Agent`
 * strings and the `version = "..."` field. Files, git and the command line are left out; an
 * error exit is `Err`.
 */
module BumpVersion {
  import opened Wrappers
  import opened Text

  datatype Version = Version(major: nat, minor: nat, patch: nat)

  /** The length of the run of ASCII digits at the start of `s` (what a greedy `\d+` takes). */
  function DigitRun(s: string): (n: nat)
    ensures n <= |s|
    ensures AllDigits(s[..n])
    ensures n < |s| ==> !IsDigit(s[n])
    decreases |s|
  {
    if |s| > 0 && IsDigit(s[0]) then
      var n := 1 + DigitRun(s[1..]);
      assert forall i :: 1 <= i < n ==> s[..n][i] == s[1..][..n - 1][i - 1];
      n
    else 0
  }

  /** A run of digits followed by something that is not a digit is read exactly. */
  lemma {:induction false} DigitRunOf(d: string, rest: string)
    requires AllDigits(d)
    requires |rest| == 0 || !IsDigit(rest[0])
    ensures DigitRun(d + rest) == |d|
    decreases |d|
  {
    if |d| > 0 {
      assert (d + rest)[1..] == d[1..] + rest;
      DigitRunOf(d[1..], rest);
    } else {
      assert d + rest == rest;
    }
  }

  /** A greedy `\d+` at the start of `s`: the number it reads and the text after it. */
  function ReadNumber(s: string): (r: Option<(nat, string)>)
    ensures |s| == 0 || !IsDigit(s[0]) ==> r.None?
    ensures |s| > 0 && IsDigit(s[0]) ==> r.Some?
    ensures r.Some? ==> |r.value.1| < |s|
    ensures r.Some? ==> |r.value.1| == 0 || !IsDigit(r.value.1[0])
  {
    var n := DigitRun(s);
    if n == 0 then None else Some((DigitsValue(s[..n]), s[n..]))
  }

  /** The group reads the digits in front of the rest it leaves, as their value. */
  lemma ReadNumberGreedy(s: string)
    requires ReadNumber(s).Some?
    ensures var (v, rest) := ReadNumber(s).value;
            var n := |s| - |rest|;
            IsDigits(s[..n]) && v == DigitsValue(s[..n]) && rest == s[n..]
  {
  }

  /** A digit string followed by a non-digit is read as its value. */
  lemma ReadNumberOf(d: string, rest: string)
    requires IsDigits(d)
    requires |rest| == 0 || !IsDigit(rest[0])
    ensures ReadNumber(d + rest) == Some((DigitsValue(d), rest))
  {
    DigitRunOf(d, rest);
    assert (d + rest)[..|d|] == d;
    assert (d + rest)[|d|..] == rest;
  }

  /**
   * `(\d+)\.(\d+)\.(\d+)` matched at the start of `s`: the version and the text after it.
   * Digits never match the dots, so each greedy part is a maximal run of digits.
   */
  function ReadVersion(s: string): (r: Option<(Version, string)>)
    ensures |s| == 0 || !IsDigit(s[0]) ==> r.None?
    ensures r.Some? ==> |r.value.1| + 5 <= |s|
  {
    match ReadNumber(s)
    case None => None
    case Some((major, t)) =>
      if |t| == 0 || t[0] != '.' then None
      else match ReadNumber(t[1..])
        case None => None
        case Some((minor, u)) =>
          if |u| == 0 || u[0] != '.' then None
          else match ReadNumber(u[1..])
            case None => None
            case Some((patch, w)) => Some((Version(major, minor, patch), w))
  }

  /** `parse_version`: a version at the start of the string, anything after it ignored; `Err` where the script exits. */
  function ParseVersion(s: string): (r: Result<Version>)
    ensures |s| == 0 || !IsDigit(s[0]) ==> r.Err?
    ensures r.Ok? ==> |s| >= 5
  {
    match ReadVersion(s)
    case None => Err
    case Some((v, _)) => Ok(v)
  }

  /** `f"{major}.{minor}.{patch}"`. */
  function FormatVersion(v: Version): (r: string)
    ensures |r| >= 5
    ensures forall i :: 0 <= i < |r| ==> IsDigit(r[i]) || r[i] == '.'
  {
    NatToString(v.major) + "." + NatToString(v.minor) + "." + NatToString(v.patch)
  }

  /** The text after each part of a formatted version, split off one part at a time. */
  lemma FormattedParts(v: Version, rest: string)
    ensures var M, m, p := NatToString(v.major), NatToString(v.minor), NatToString(v.patch);
            FormatVersion(v) + rest == M + ("." + (m + ("." + (p + rest))))
  {
  }

  /** Three numbers joined by dots are read as a version. */
  lemma ReadParts(s: string, x: string, y: string, rest: string, a: nat, b: nat, c: nat)
    requires ReadNumber(s) == Some((a, x)) && |x| > 0 && x[0] == '.'
    requires ReadNumber(x[1..]) == Some((b, y)) && |y| > 0 && y[0] == '.'
    requires ReadNumber(y[1..]) == Some((c, rest))
    ensures ReadVersion(s) == Some((Version(a, b, c), rest))
  {
  }

  /** A formatted version followed by a non-digit is read back, with the rest left over. */
  lemma ReadFormatted(v: Version, rest: string)
    requires |rest| == 0 || !IsDigit(rest[0])
    ensures ReadVersion(FormatVersion(v) + rest) == Some((v, rest))
  {
    var M, m, p := NatToString(v.major), NatToString(v.minor), NatToString(v.patch);
    var y := "." + (p + rest);
    var x := "." + (m + y);
    FormattedParts(v, rest);
    ReadNumberOf(M, x);
    assert x[1..] == m + y;
    ReadNumberOf(m, y);
    assert y[1..] == p + rest;
    ReadNumberOf(p, rest);
    ReadParts(M + x, x, y, rest, v.major, v.minor, v.patch);
  }

  /** A formatted version is read back, whatever non-digit text follows it. */
  lemma ParseFormatted(v: Version, rest: string)
    requires |rest| == 0 || !IsDigit(rest[0])
    ensures ParseVersion(FormatVersion(v) + rest) == Ok(v)
  {
    ReadFormatted(v, rest);
  }

  /** A formatted version is read back. */
  lemma ParseFormatVersion(v: Version)
    ensures ParseVersion(FormatVersion(v)) == Ok(v)
  {
    ParseFormatted(v, "");
    assert FormatVersion(v) + "" == FormatVersion(v);
  }

  /**
   * `s` is `a.b.c` followed by `rest`: three digit strings joined by dots, with `rest` not
   * continuing the last one.
   */
  predicate VersionSpelling(s: string, a: string, b: string, c: string, rest: string)
  {
    IsDigits(a) && IsDigits(b) && IsDigits(c) && (|rest| == 0 || !IsDigit(rest[0])) &&
    s == a + "." + b + "." + c + rest
  }

  /** Any spelling of three digit strings is read, leading zeros included: "01.2.3" is 1.2.3. */
  lemma ParseVersionOf(a: string, b: string, c: string, rest: string)
    requires IsDigits(a) && IsDigits(b) && IsDigits(c)
    requires |rest| == 0 || !IsDigit(rest[0])
    ensures ParseVersion(a + "." + b + "." + c + rest) == Ok(Version(DigitsValue(a), DigitsValue(b), DigitsValue(c)))
  {
    var y := "." + (c + rest);
    var x := "." + (b + y);
    assert a + "." + b + "." + c + rest == a + x;
    ReadNumberOf(a, x);
    assert x[1..] == b + y;
    ReadNumberOf(b, y);
    assert y[1..] == c + rest;
    ReadNumberOf(c, rest);
    ReadParts(a + x, x, y, rest, DigitsValue(a), DigitsValue(b), DigitsValue(c));
  }

  /** A successful `\d+` read splits its input into the digits and the text after them. */
  lemma NumberSplit(s: string) returns (d: string, t: string)
    requires ReadNumber(s).Some?
    ensures IsDigits(d) && s == d + t && (|t| == 0 || !IsDigit(t[0]))
    ensures ReadNumber(s) == Some((DigitsValue(d), t))
  {
    var n := DigitRun(s);
    d := s[..n];
    t := s[n..];
    assert s == d + t;
  }

  /** The spelling a successful read has: the digit runs it consumed and the text after them. */
  lemma SpellingOf(s: string) returns (a: string, b: string, c: string, rest: string)
    requires ReadVersion(s).Some?
    ensures VersionSpelling(s, a, b, c, rest)
  {
    var t, u;
    a, t := NumberSplit(s);
    assert |t| > 0 && t[0] == '.';
    b, u := NumberSplit(t[1..]);
    assert |u| > 0 && u[0] == '.';
    c, rest := NumberSplit(u[1..]);
    assert u == "." + (c + rest);
    assert t == "." + (b + u);
    Reassociate(a, b, c, rest);
  }

  lemma Reassociate(a: string, b: string, c: string, rest: string)
    ensures a + "." + b + "." + c + rest == a + ("." + (b + ("." + (c + rest))))
  {
  }

  /**
   * `parse_version` succeeds exactly on strings that start with `N.N.N`, and then returns the
   * values of the three digit strings.
   */
  lemma ParseVersionIffSpelled(s: string)
    ensures ParseVersion(s).Ok? <==> exists a, b, c, rest :: VersionSpelling(s, a, b, c, rest)
    ensures forall a, b, c, rest :: VersionSpelling(s, a, b, c, rest) ==>
              ParseVersion(s) == Ok(Version(DigitsValue(a), DigitsValue(b), DigitsValue(c)))
  {
    if ParseVersion(s).Ok? {
      var a, b, c, rest := SpellingOf(s);
    }
    forall a, b, c, rest | VersionSpelling(s, a, b, c, rest)
      ensures ParseVersion(s) == Ok(Version(DigitsValue(a), DigitsValue(b), DigitsValue(c)))
    {
      ParseVersionOf(a, b, c, rest);
    }
  }

  /** `increment_version(current, kind)`: `Err` for an unreadable version or an unknown kind. */
  function IncrementVersion(current: string, kind: string): (r: Result<string>)
    ensures r.Ok? <==> ParseVersion(current).Ok? && (kind == "major" || kind == "minor" || kind == "patch")
  {
    match ParseVersion(current)
    case Err => Err
    case Ok(v) =>
      if kind == "major" then Ok(FormatVersion(Version(v.major + 1, 0, 0)))
      else if kind == "minor" then Ok(FormatVersion(Version(v.major, v.minor + 1, 0)))
      else if kind == "patch" then Ok(FormatVersion(Version(v.major, v.minor, v.patch + 1)))
      else Err
  }

  /** Precedence of versions without pre-release or build parts. */
  predicate Precedes(a: Version, b: Version)
  {
    a.major < b.major || (a.major == b.major && (a.minor < b.minor || (a.minor == b.minor && a.patch < b.patch)))
  }

  /**
   * The incremented version reads back as the next version of its kind: the named part goes
   * up by one, the lower parts reset to 0, the higher parts stay; it always comes later.
   */
  lemma IncrementRoundTrip(current: string, kind: string)
    requires IncrementVersion(current, kind).Ok?
    ensures var v := ParseVersion(current).value;
            var r := ParseVersion(IncrementVersion(current, kind).value);
            r.Ok? && Precedes(v, r.value) &&
            (kind == "major" ==> r.value == Version(v.major + 1, 0, 0)) &&
            (kind == "minor" ==> r.value == Version(v.major, v.minor + 1, 0)) &&
            (kind == "patch" ==> r.value == Version(v.major, v.minor, v.patch + 1))
  {
    var v := ParseVersion(current).value;
    if kind == "major" {
      ParseFormatVersion(Version(v.major + 1, 0, 0));
    } else if kind == "minor" {
      ParseFormatVersion(Version(v.major, v.minor + 1, 0));
    } else {
      ParseFormatVersion(Version(v.major, v.minor, v.patch + 1));
    }
  }

  /** `".".join(version.split(".")[:2])`. */
  function VersionPrefix(version: string): (r: string)
    ensures r <= version
  {
    var parts := Split(version, '.');
    JoinPrefix(parts, Min(2, |parts|), '.');
    JoinSplit(version, '.');
    Join(parts[..Min(2, |parts|)], '.')
  }

  /** The prefix of a formatted version is its major and minor parts. */
  lemma PrefixOfFormatted(v: Version)
    ensures VersionPrefix(FormatVersion(v)) == NatToString(v.major) + "." + NatToString(v.minor)
  {
    var M, m, p := NatToString(v.major), NatToString(v.minor), NatToString(v.patch);
    var parts := [M, m, p];
    assert parts[1..] == [m, p] && parts[1..][1..] == [p];
    assert Join([p], '.') == p;
    assert Join([m, p], '.') == m + ['.'] + p;
    assert Join(parts, '.') == M + ['.'] + (m + ['.'] + p);
    assert Join(parts, '.') == FormatVersion(v);
    forall i | 0 <= i < |parts|
      ensures '.' !in parts[i]
    {
      assert IsDigits(parts[i]);
    }
    SplitJoin(parts, '.');
    assert parts[..2] == [M, m] && parts[..2][1..] == [m];
    assert Join([m], '.') == m;
  }

  const AgentMarker := "\"User-Agent\": \"HckrnewsClient/"

  /**
   * The version in the first `User-Agent` string: the text from the marker to the next
   * double quote, when that quote exists and the text is not empty.
   */
  function OldAgent(content: string): (r: Option<string>)
    ensures r.Some? ==> var p := Find(content, AgentMarker, 0);
                        p >= 0 && OccursAt(content, AgentMarker + r.value + "\"", p)
    ensures r.Some? ==> |r.value| > 0 && '"' !in r.value
    ensures !Contains(content, AgentMarker) ==> r.None?
  {
    var p := Find(content, AgentMarker, 0);
    if p < 0 then None
    else
      var start := p + |AgentMarker|;
      var end := Find(content, "\"", start);
      if start > 0 && end > start then
        var prev := content[start..end];
        QuoteFreeSpan(content, start, end);
        assert content[p..end + 1] == AgentMarker + prev + "\"";
        Some(prev)
      else None
  }

  /** A span in which no double quote starts holds no double quote. */
  lemma QuoteFreeSpan(content: string, start: nat, end: nat)
    requires start <= end <= |content|
    requires forall i :: start <= i < end ==> !OccursAt(content, "\"", i)
    ensures '"' !in content[start..end]
  {
    forall i | 0 <= i < end - start
      ensures content[start..end][i] != '"'
    {
      assert !OccursAt(content, "\"", start + i);
      assert content[start + i..start + i + 1] == [content[start + i]];
    }
  }

  /**
   * `update_user_agent`'s string logic: every copy of the old `User-Agent` string becomes one
   * with the new major.minor; the flag reports whether the version differed.
   */
  function UpdateUserAgent(content: string, newVersion: string): (r: (string, bool))
    ensures OldAgent(content).None? ==> r == (content, false)
    ensures r.1 <==> OldAgent(content).Some? && OldAgent(content).value != VersionPrefix(newVersion)
    ensures OldAgent(content) == Some(VersionPrefix(newVersion)) ==> r.0 == content
  {
    match OldAgent(content)
    case None => (content, false)
    case Some(prev) =>
      var prefix := VersionPrefix(newVersion);
      ReplaceSelf(content, AgentMarker + prev + "\"");
      (ReplaceAll(content, AgentMarker + prev + "\"", AgentMarker + prefix + "\""), prev != prefix)
  }

  /** A content whose first marker is followed by `prefix` and a quote names `prefix` (if any). */
  lemma AgentOf(t: string, p: nat, prefix: string)
    requires OccursAt(t, AgentMarker + prefix + "\"", p)
    requires forall i :: 0 <= i < p ==> !OccursAt(t, AgentMarker, i)
    requires '"' !in prefix
    ensures OldAgent(t) == if |prefix| > 0 then Some(prefix) else None
  {
    var start := p + |AgentMarker|;
    var end := start + |prefix|;
    SplitOccurrence(t, p, AgentMarker, prefix, "\"");
    FindFirst(t, AgentMarker, 0, p);
    NoQuoteIn(t, start, prefix);
    FindFirst(t, "\"", start, end);
  }

  /** No copy of the old `User-Agent` string starts before the first marker. */
  lemma NoPatternBeforeMarker(content: string, prev: string)
    requires Find(content, AgentMarker, 0) >= 0
    ensures forall i :: 0 <= i < Find(content, AgentMarker, 0) ==> !OccursAt(content, AgentMarker + prev + "\"", i)
  {
    forall i | 0 <= i < Find(content, AgentMarker, 0)
      ensures !OccursAt(content, AgentMarker + prev + "\"", i)
    {
      if OccursAt(content, AgentMarker + prev + "\"", i) {
        assert AgentMarker + prev + "\"" == AgentMarker + (prev + "\"");
        OccursPrefix(content, AgentMarker, prev + "\"", i);
      }
    }
  }

  /** The content after replacing the first `User-Agent` string names `prefix` there. */
  lemma AgentAfterReplace(content: string, prev: string, prefix: string)
    requires OldAgent(content) == Some(prev)
    requires '"' !in prefix
    ensures var first := ReplaceAll(content, AgentMarker + prev + "\"", AgentMarker + prefix + "\"");
            OldAgent(first) == if |prefix| > 0 then Some(prefix) else None
  {
    var pat := AgentMarker + prev + "\"";
    var rep := AgentMarker + prefix + "\"";
    var first := ReplaceAll(content, pat, rep);
    var p := Find(content, AgentMarker, 0);
    var m := |AgentMarker|;
    NoPatternBeforeMarker(content, prev);
    ReplaceFromFirst(content, pat, rep, p);
    var tail := ReplaceAll(content[p + |pat|..], pat, rep);
    MarkerKept(content, first, pat, rep, tail, p);
    forall i | 0 <= i < p
      ensures !OccursAt(first, AgentMarker, i)
    {
      OccursInCommonPrefix(content, first, AgentMarker, p + m, i);
    }
    assert OccursAt(first, rep, p) by {
      assert first[p..p + |rep|] == rep;
    }
    AgentOf(first, p, prefix);
  }

  /** Replacing at the first marker keeps everything up to the end of that marker. */
  lemma MarkerKept(content: string, first: string, pat: string, rep: string, tail: string, p: nat)
    requires OccursAt(content, pat, p) && |pat| >= |AgentMarker| && |rep| >= |AgentMarker|
    requires pat[..|AgentMarker|] == AgentMarker && rep[..|AgentMarker|] == AgentMarker
    requires first == content[..p] + rep + tail
    ensures p + |AgentMarker| <= |first| && p + |AgentMarker| <= |content|
    ensures first[..p + |AgentMarker|] == content[..p + |AgentMarker|]
  {
    var m := |AgentMarker|;
    assert first[..p] == content[..p];
    assert first[p..p + m] == rep[..m];
    assert content[p..p + m] == pat[..m] by {
      assert content[p..p + |pat|] == pat;
    }
    assert first[..p + m] == first[..p] + first[p..p + m];
    assert content[..p + m] == content[..p] + content[p..p + m];
  }

  /**
   * Running the update twice with the same version changes nothing more: the second run
   * finds the new version in place, keeps the content and reports no change.
   */
  lemma UpdateUserAgentIdempotent(content: string, newVersion: string)
    requires '"' !in VersionPrefix(newVersion)
    ensures var first := UpdateUserAgent(content, newVersion).0;
            UpdateUserAgent(first, newVersion) == (first, false)
  {
    if OldAgent(content).Some? {
      AgentAfterReplace(content, OldAgent(content).value, VersionPrefix(newVersion));
    }
  }

  const FieldStart := "version = \""

  /** The length of the `version = "N.N.N"` match at the start of `s`, or 0 when there is none. */
  function FieldAt(s: string): (n: nat)
    ensures n <= |s|
    ensures n > 0 ==> |s| >= |FieldStart| && s[..|FieldStart|] == FieldStart
  {
    var k := |FieldStart|;
    if |s| < k || s[..k] != FieldStart then 0
    else match ReadVersion(s[k..])
      case None => 0
      case Some((_, w)) => if |w| == 0 || w[0] != '"' then 0 else |s| - |w| + 1
  }

  /** A match holds a readable version after the opening and ends at its closing quote. */
  lemma FieldAtShape(s: string)
    requires FieldAt(s) > 0
    ensures ReadVersion(s[|FieldStart|..]).Some?
    ensures FieldAt(s) >= |FieldStart| + 6 && s[FieldAt(s) - 1] == '"'
  {
  }

  /** `re.sub` of the version field: every match, left to right, becomes `rep`. */
  function SubFields(s: string, rep: string): (r: string)
    ensures NoField(s) || Contains(r, rep)
    decreases |s|
  {
    if |s| == 0 then s
    else if FieldAt(s) > 0 then
      var r := rep + SubFields(s[FieldAt(s)..], rep);
      assert OccursAt(r, rep, 0);
      r
    else
      var rest := SubFields(s[1..], rep);
      SubFieldsStep(s, rest, rep);
      [s[0]] + rest
  }

  /** A copied character keeps a replacement found further on, and adds no field. */
  lemma SubFieldsStep(s: string, rest: string, rep: string)
    requires |s| > 0 && FieldAt(s) == 0
    requires NoField(s[1..]) || Contains(rest, rep)
    ensures NoField(s) || Contains([s[0]] + rest, rep)
  {
    var r := [s[0]] + rest;
    if Contains(rest, rep) {
      var i :| 0 <= i <= |rest| && OccursAt(rest, rep, i);
      assert r[1..] == rest;
      OccursShift(r, rep, i);
    } else {
      forall i | 0 <= i < |s|
        ensures FieldAt(s[i..]) == 0
      {
        if i == 0 {
          assert s[0..] == s;
        } else {
          assert s[i..] == s[1..][i - 1..];
        }
      }
    }
  }

  /** No version field starts anywhere in `s`. */
  predicate NoField(s: string)
  {
    forall i :: 0 <= i < |s| ==> FieldAt(s[i..]) == 0
  }

  /** Without a field `re.sub` finds nothing to replace. */
  lemma {:induction false} NoFieldUnchanged(s: string, rep: string)
    ensures NoField(s) ==> SubFields(s, rep) == s
    decreases |s|
  {
    if |s| > 0 && NoField(s) {
      assert FieldAt(s[0..]) == 0;
      assert s[0..] == s;
      assert NoField(s[1..]) by {
        forall i | 0 <= i < |s[1..]|
          ensures FieldAt(s[1..][i..]) == 0
        {
          assert s[1..][i..] == s[i + 1..];
        }
      }
      NoFieldUnchanged(s[1..], rep);
    }
  }

  /**
   * `update_pyproject_toml`'s string logic: every `version = "N.N.N"` gets the new version;
   * the flag reports whether the content changed.
   */
  function UpdatePyproject(content: string, newVersion: string): (r: (string, bool))
    ensures r.1 <==> r.0 != content
    ensures NoField(content) ==> r == (content, false)
  {
    NoFieldUnchanged(content, FieldStart + newVersion + "\"");
    var updated := SubFields(content, FieldStart + newVersion + "\"");
    (updated, updated != content)
  }

  /**
   * A file holding exactly the field of version `v` gets the new version, and reports a
   * change exactly when the version text differs.
   */
  lemma RewritesTheField(v: Version, newVersion: string)
    ensures var field := FieldStart + FormatVersion(v) + "\"";
            UpdatePyproject(field, newVersion) == (FieldStart + newVersion + "\"", FormatVersion(v) != newVersion)
  {
    var field := FieldStart + FormatVersion(v) + "\"";
    var k := |FieldStart|;
    assert field[..k] == FieldStart;
    assert field[k..] == FormatVersion(v) + "\"";
    ReadFormatted(v, "\"");
    assert FieldAt(field) == |field|;
    assert field[|field|..] == "";
    var rep := FieldStart + newVersion + "\"";
    assert SubFields(field, rep) == rep + "";
    assert rep + "" == rep;
    FieldInjective(FormatVersion(v), newVersion);
    assert (rep != field) <==> (FormatVersion(v) != newVersion);
  }

  /** Text before which no field starts is copied as it is, and the rest is rewritten. */
  lemma SubFieldsCopies(a: string, b: string, rep: string)
    requires forall i :: 0 <= i < |a| ==> FieldAt((a + b)[i..]) == 0
    ensures SubFields(a + b, rep) == a + SubFields(b, rep)
  {
    SubFieldsFrom(a + b, |a|, rep);
    assert (a + b)[..|a|] == a && (a + b)[|a|..] == b;
  }

  /** The first `k` characters, none of which starts a field, are copied as they are. */
  lemma {:induction false} SubFieldsFrom(s: string, k: nat, rep: string)
    requires k <= |s|
    requires forall i :: 0 <= i < k ==> FieldAt(s[i..]) == 0
    ensures SubFields(s, rep) == s[..k] + SubFields(s[k..], rep)
    decreases k
  {
    if k == 0 {
      assert s[..0] + SubFields(s[0..], rep) == SubFields(s, rep) by {
        assert s[0..] == s;
      }
    } else {
      NoFieldFurtherOn(s, k);
      SubFieldsCopyStep(s, rep);
      SubFieldsFrom(s[1..], k - 1, rep);
      DropOne(s, k);
    }
  }

  /** The condition of `SubFieldsFrom` for the text after the first character. */
  lemma NoFieldFurtherOn(s: string, k: nat)
    requires 0 < k <= |s|
    requires forall i :: 0 <= i < k ==> FieldAt(s[i..]) == 0
    ensures FieldAt(s) == 0
    ensures forall i :: 0 <= i < k - 1 ==> FieldAt(s[1..][i..]) == 0
  {
    assert s[0..] == s;
    forall i | 0 <= i < k - 1
      ensures FieldAt(s[1..][i..]) == 0
    {
      assert s[1..][i..] == s[i + 1..];
    }
  }

  lemma DropOne(s: string, k: nat)
    requires 0 < k <= |s|
    ensures s[1..][k - 1..] == s[k..] && [s[0]] + s[1..][..k - 1] == s[..k]
  {
  }

  /** A character that starts no field is copied, and the search moves one step on. */
  lemma SubFieldsCopyStep(s: string, rep: string)
    requires |s| > 0 && FieldAt(s) == 0
    ensures SubFields(s, rep) == [s[0]] + SubFields(s[1..], rep)
  {
  }

  /** A field at the start is replaced as a whole, and the search resumes right after it. */
  lemma SubFieldsRewrites(f: string, b: string, rep: string)
    requires |f| > 0 && FieldAt(f + b) == |f|
    ensures SubFields(f + b, rep) == rep + SubFields(b, rep)
  {
    assert (f + b)[|f|..] == b;
  }

  /**
   * `re.sub` between two fields: the text before the first field is kept, the field is
   * replaced, and everything after it is rewritten the same way.
   */
  lemma SubFieldsAt(a: string, f: string, b: string, rep: string)
    requires forall i :: 0 <= i < |a| ==> FieldAt((a + f + b)[i..]) == 0
    requires |f| > 0 && FieldAt(f + b) == |f|
    ensures SubFields(a + f + b, rep) == a + rep + SubFields(b, rep)
  {
    assert a + f + b == a + (f + b);
    SubFieldsCopies(a, f + b, rep);
    SubFieldsRewrites(f, b, rep);
  }

  /** The field holding version `v`, as `str.format` writes it. */
  function FieldOf(v: Version): string
  {
    FieldStart + FormatVersion(v) + "\""
  }

  /** The pattern matches a written field as a whole, whatever follows it. */
  lemma FieldAtFieldOf(v: Version, rest: string)
    ensures FieldAt(FieldOf(v) + rest) == |FieldOf(v)|
  {
    var s := FieldOf(v) + rest;
    var k := |FieldStart|;
    assert s[..k] == FieldStart;
    assert s[k..] == FormatVersion(v) + ("\"" + rest);
    ReadFormatted(v, "\"" + rest);
  }

  /** Only the first character of the field opening `version = "` is a `v`. */
  lemma OpeningHasOneV(j: nat)
    requires 0 < j < |FieldStart|
    ensures FieldStart[j] != 'v'
  {
  }

  /** Text that does not start with the field opening starts no field. */
  lemma NoOpeningNoField(x: string)
    requires !(|x| >= |FieldStart| && x[..|FieldStart|] == FieldStart)
    ensures FieldAt(x) == 0
  {
  }

  /**
   * Text without the field's opening `version = "` starts no field, even one running on into
   * a following field: no later character of the opening is a `v`.
   */
  lemma GapStartsNoField(gap: string, tail: string)
    requires !Contains(gap, FieldStart)
    requires |tail| == 0 || (|tail| >= |FieldStart| && tail[..|FieldStart|] == FieldStart)
    ensures forall i :: 0 <= i < |gap| ==> FieldAt((gap + tail)[i..]) == 0
  {
    var m := |FieldStart|;
    forall i | 0 <= i < |gap|
      ensures FieldAt((gap + tail)[i..]) == 0
    {
      var x := (gap + tail)[i..];
      if |x| >= m && x[..m] == FieldStart {
        if i + m <= |gap| {
          assert gap[i..i + m] == x[..m];
          assert OccursAt(gap, FieldStart, i);
        } else {
          var j := |gap| - i;
          assert x[j] == tail[0];
          assert tail[0] == FieldStart[0];
          OpeningHasOneV(j);
        }
      }
      NoOpeningNoField(x);
    }
  }

  /** The gaps of a file with the given texts between each two of them. */
  function Interleave(gaps: seq<string>, fields: seq<string>): string
    requires |gaps| == |fields| + 1
    decreases |fields|
  {
    if |fields| == 0 then gaps[0] else gaps[0] + fields[0] + Interleave(gaps[1..], fields[1..])
  }

  /** The fields of the given versions, in order. */
  function FieldsOf(versions: seq<Version>): (r: seq<string>)
    ensures |r| == |versions|
    ensures forall j :: 0 <= j < |r| ==> r[j] == FieldOf(versions[j])
  {
    seq(|versions|, j requires 0 <= j < |versions| => FieldOf(versions[j]))
  }

  /** The text between two fields, or after the last, starts like a field or is empty. */
  lemma InterleaveStart(gaps: seq<string>, versions: seq<Version>)
    requires |gaps| == |versions| + 1 && |versions| > 0
    ensures var rest := Interleave(gaps[1..], FieldsOf(versions[1..]));
            Interleave(gaps, FieldsOf(versions)) == gaps[0] + FieldOf(versions[0]) + rest
  {
    assert FieldsOf(versions)[1..] == FieldsOf(versions[1..]);
  }

  /** The first field of such a file is replaced, the gap before it kept. */
  lemma FirstFieldRewritten(gaps: seq<string>, versions: seq<Version>, rep: string)
    requires |gaps| == |versions| + 1 && |versions| > 0
    requires !Contains(gaps[0], FieldStart)
    ensures var rest := Interleave(gaps[1..], FieldsOf(versions[1..]));
            SubFields(Interleave(gaps, FieldsOf(versions)), rep) == gaps[0] + rep + SubFields(rest, rep)
  {
    var f := FieldOf(versions[0]);
    var rest := Interleave(gaps[1..], FieldsOf(versions[1..]));
    InterleaveStart(gaps, versions);
    FieldAtFieldOf(versions[0], rest);
    assert (f + rest)[..|FieldStart|] == FieldStart;
    GapStartsNoField(gaps[0], f + rest);
    assert gaps[0] + f + rest == gaps[0] + (f + rest);
    SubFieldsAt(gaps[0], f, rest, rep);
  }

  /** A field-free last gap is copied unchanged. */
  lemma LastGapKept(gap: string, rep: string)
    requires !Contains(gap, FieldStart)
    ensures SubFields(gap, rep) == gap
  {
    GapStartsNoField(gap, "");
    assert gap + "" == gap;
    NoFieldUnchanged(gap, rep);
  }

  /**
   * `re.sub` rewrites every field: a file made of gaps without the field opening and fields
   * of any versions comes out with every field replaced and every gap kept.
   */
  lemma {:induction false} SubFieldsEveryField(gaps: seq<string>, versions: seq<Version>, rep: string)
    requires |gaps| == |versions| + 1
    requires forall j :: 0 <= j < |gaps| ==> !Contains(gaps[j], FieldStart)
    ensures SubFields(Interleave(gaps, FieldsOf(versions)), rep) == Interleave(gaps, seq(|versions|, _ => rep))
    decreases |versions|
  {
    if |versions| == 0 {
      LastGapKept(gaps[0], rep);
    } else {
      FirstFieldRewritten(gaps, versions, rep);
      assert forall j :: 0 <= j < |gaps[1..]| ==> gaps[1..][j] == gaps[j + 1];
      SubFieldsEveryField(gaps[1..], versions[1..], rep);
      InterleaveCopies(gaps, rep);
    }
  }

  /** Interleaving with copies of one text, one gap and one copy at a time. */
  lemma InterleaveCopies(gaps: seq<string>, rep: string)
    requires |gaps| >= 2
    ensures Interleave(gaps, seq(|gaps| - 1, _ => rep)) == gaps[0] + rep + Interleave(gaps[1..], seq(|gaps| - 2, _ => rep))
  {
    assert seq(|gaps| - 1, _ => rep)[1..] == seq(|gaps| - 2, _ => rep);
  }

  /**
   * `update_pyproject_toml` on a file with several version fields writes the new version
   * into every one of them and leaves the text around them as it was.
   */
  lemma UpdatePyprojectEveryField(gaps: seq<string>, versions: seq<Version>, newVersion: string)
    requires |gaps| == |versions| + 1
    requires forall j :: 0 <= j < |gaps| ==> !Contains(gaps[j], FieldStart)
    ensures var rep := FieldStart + newVersion + "\"";
            UpdatePyproject(Interleave(gaps, FieldsOf(versions)), newVersion).0 == Interleave(gaps, seq(|versions|, _ => rep))
  {
    SubFieldsEveryField(gaps, versions, FieldStart + newVersion + "\"");
  }

  /** Different version texts give different fields. */
  lemma FieldInjective(a: string, b: string)
    ensures FieldStart + a + "\"" == FieldStart + b + "\"" ==> a == b
  {
    var x := FieldStart + a + "\"";
    var y := FieldStart + b + "\"";
    assert x[|FieldStart|..|x| - 1] == a;
    assert y[|FieldStart|..|y| - 1] == b;
  }
}
