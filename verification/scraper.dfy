/**
 * `parse_stories`: the rows of a hckrnews.com page become story records, each flagged as
 * today's or not. The HTML is abstracted to the list of `li.row` elements with the parts the
 * parser looks up; today's midnight is a parameter.
 */
module Scraper {
  import opened Wrappers
  import opened Text
  import opened Values
  import opened Stories
  import opened Seqs

  /** A `span.points` or `span.comments` element. */
  datatype Span = Span(classes: seq<string>, text: string)
  /** The `a.link` element: its `href` (possibly absent), its text, and the text of its `span.source`. */
  datatype Anchor = Anchor(href: Option<string>, text: string, source: Option<string>)
  /** The `a.hn` element and its `data-date` attribute (possibly absent). */
  datatype HnAnchor = HnAnchor(classes: seq<string>, dataDate: Option<string>)
  /** One `li.row` element. */
  datatype Row = Row(classes: seq<string>, id: Option<string>, points: Option<Span>, comments: Option<Span>,
                     link: Option<Anchor>, hn: Option<HnAnchor>)

  /** A parsed story with its temporary `from_today` flag. */
  datatype Record = Record(story: Story, fromToday: bool)

  /** A day separator row (`li.row.day`), checked before anything else. */
  predicate IsSeparator(row: Row)
  {
    "day" in row.classes
  }

  predicate IsJob(row: Row)
  {
    row.hn.Some? && "job" in row.hn.value.classes
  }

  /** A row that yields a record: not a separator, an `entry`, and not a job posting. */
  predicate IsStoryRow(row: Row)
  {
    !IsSeparator(row) && "entry" in row.classes && !IsJob(row)
  }

  /** An optional attribute as the value stored under its key. */
  function OptStr(v: Option<string>): (r: Value)
    ensures r == NoneVal <==> v.None?
  {
    match v
    case Some(s) => StrVal(s)
    case None => NoneVal
  }

  /** The stripped text of a count span if it is a digit string, otherwise "0". */
  function CountText(span: Option<Span>): (r: string)
    ensures IsDigits(r)
    ensures span.Some? && IsDigits(Strip(span.value.text)) ==> r == Strip(span.value.text)
    ensures r != "0" ==> span.Some? && r == Strip(span.value.text)
  {
    if span.Some? && IsDigits(Strip(span.value.text)) then Strip(span.value.text) else "0"
  }

  /**
   * The title: the stripped link text with every occurrence of the source text removed, then
   * stripped again.
   */
  function Title(a: Anchor): (r: string)
    ensures |r| > 0 ==> !IsSpace(r[0]) && !IsSpace(r[|r| - 1])
    ensures |r| <= |a.text|
    ensures a.source.None? ==> r == Strip(a.text)
  {
    var t := Strip(a.text);
    match a.source
    case None => t
    case Some(src) => Strip(RemoveAll(t, src))
  }

  /** A title whose source text does not occur in it is just the stripped link text. */
  lemma TitleWithoutSourceText(a: Anchor)
    requires a.source.Some? && !Contains(Strip(a.text), a.source.value)
    ensures Title(a) == Strip(a.text)
  {
    StripIdempotent(a.text);
  }

  /**
   * The shape of a story link on the page: the title text followed by the source span's text,
   * which does not occur earlier. Removing it leaves the stripped title text.
   */
  lemma TitleDropsSourceText(a: Anchor, t: string, src: string)
    requires a.text == t + src && a.source == Some(src)
    requires |src| > 0 && !IsSpace(src[0]) && !IsSpace(src[|src| - 1])
    requires forall i :: 0 <= i < |t| ==> !OccursAt(t + src, src, i)
    ensures Title(a) == Strip(t)
  {
    var k := StripBeforeSuffix(t, src);
    var u := t[k..];
    forall i | 0 <= i < |u|
      ensures !OccursAt(u + src, src, i)
    {
      assert !OccursAt(t + src, src, k + i);
      if i + |src| <= |u + src| {
        assert (u + src)[i..i + |src|] == (t + src)[k + i..k + i + |src|];
      }
    }
    RemoveOnlyOccurrence(u, src);
    StripDrop(t, k);
  }

  /**
   * The `data-date` string: "0" without an `a.hn` element, `None` when the element lacks the
   * attribute (the `isdigit()` call on it then raises).
   */
  function TimeText(row: Row): (r: Option<string>)
    ensures r.None? <==> row.hn.Some? && row.hn.value.dataDate.None?
    ensures row.hn.None? ==> r == Some("0")
  {
    match row.hn
    case None => Some("0")
    case Some(h) => h.dataDate
  }

  /** `int(timestamp_str) if timestamp_str.isdigit() else 0`. */
  function Timestamp(s: string): (t: nat)
    ensures IsDigits(s) ==> t == DigitsValue(s)
    ensures !IsDigits(s) ==> t == 0
  {
    if IsDigits(s) then DigitsValue(s) else 0
  }

  /** The timestamp test: non-zero and not before today's midnight. */
  predicate TodayByTimestamp(s: string, midnight: int)
  {
    var t := Timestamp(s);
    t != 0 && t >= midnight
  }

  /** A record's story is today's by its timestamp. */
  predicate StampedToday(rec: Record, midnight: int)
  {
    rec.story.time.StrVal? && TodayByTimestamp(rec.story.time.s, midnight)
  }

  /** A `data-date` that is not a digit string counts as 0 and is never today. */
  lemma NonDigitDateNeverToday(s: string, midnight: int)
    requires !IsDigits(s)
    ensures !TodayByTimestamp(s, midnight)
  {
  }

  /**
   * The story dictionary of a row. Without an `a.link` the parser calls `select_one` on
   * `None`, and without a `data-date` it calls `isdigit` on `None`; both raise.
   */
  function StoryOf(row: Row): (r: Result<Story>)
    ensures r.Ok? <==> row.link.Some? && TimeText(row).Some?
    ensures r.Ok? ==> r.value.points.StrVal? && IsDigits(r.value.points.s)
    ensures r.Ok? ==> r.value.comments.StrVal? && IsDigits(r.value.comments.s)
    ensures r.Ok? ==> r.value.time == StrVal(TimeText(row).value)
    ensures r.Ok? ==> r.value.id == OptStr(row.id) && r.value.title == StrVal(Title(row.link.value))
    ensures r.Ok? ==> (r.value.homepage == BoolVal(true) <==> row.points.Some? && "homepage" in row.points.value.classes)
  {
    if row.link.None? || TimeText(row).None? then Err
    else
      var a := row.link.value;
      var homepage := row.points.Some? && "homepage" in row.points.value.classes;
      Ok(Story(OptStr(row.id), StrVal(CountText(row.points)), StrVal(CountText(row.comments)),
               OptStr(a.href), StrVal(Title(a)), StrVal(TimeText(row).value), BoolVal(homepage)))
  }

  /** The record of a story row seen while `fromToday` still holds or no longer holds. */
  function RecordOf(row: Row, fromToday: bool, midnight: int): (r: Result<Record>)
    ensures r.Ok? <==> StoryOf(row).Ok?
    ensures r.Ok? ==> r.value.story == StoryOf(row).value
    ensures r.Ok? ==> (r.value.fromToday <==> fromToday && TodayByTimestamp(TimeText(row).value, midnight))
  {
    match StoryOf(row)
    case Err => Err
    case Ok(s) => Ok(Record(s, fromToday && TodayByTimestamp(TimeText(row).value, midnight)))
  }

  /** `acc` followed by the records of a later parse, or that parse's exception. */
  function Prepend(acc: seq<Record>, r: Result<seq<Record>>): Result<seq<Record>>
  {
    match r
    case Ok(xs) => Ok(acc + xs)
    case Err => Err
  }

  /** The parse of two consecutive stretches of rows: the first exception wins. */
  function Concat(a: Result<seq<Record>>, b: Result<seq<Record>>): Result<seq<Record>>
  {
    match a
    case Err => Err
    case Ok(xs) => Prepend(xs, b)
  }

  /** The loop of `parse_stories` from some row on, with the current `from_today` flag. */
  function ParseFrom(rows: seq<Row>, fromToday: bool, midnight: int): (r: Result<seq<Record>>)
    ensures r.Ok? ==> |r.value| <= |rows|
    decreases |rows|
  {
    if |rows| == 0 then Ok([])
    else if IsSeparator(rows[0]) then ParseFrom(rows[1..], false, midnight)
    else if !IsStoryRow(rows[0]) then ParseFrom(rows[1..], fromToday, midnight)
    else
      match RecordOf(rows[0], fromToday, midnight)
      case Err => Err
      case Ok(rec) => Prepend([rec], ParseFrom(rows[1..], fromToday, midnight))
  }

  /** `parse_stories(html)` on the page's rows. */
  function ParseStories(rows: seq<Row>, midnight: int): (r: Result<seq<Record>>)
    ensures r.Ok? <==> AllStoryRowsReadable(rows)
    ensures r.Ok? ==> |r.value| <= |rows|
  {
    ParseSucceedsIff(rows, true, midnight);
    ParseFrom(rows, true, midnight)
  }

  predicate NoSeparator(rows: seq<Row>)
  {
    forall i :: 0 <= i < |rows| ==> !IsSeparator(rows[i])
  }

  /** The `from_today` flag after a stretch of rows: it survives only if no separator occurs. */
  function FlagAfter(rows: seq<Row>, fromToday: bool): (f: bool)
    ensures f <==> fromToday && NoSeparator(rows)
  {
    fromToday && NoSeparator(rows)
  }

  lemma PrependEmpty(r: Result<seq<Record>>)
    ensures Prepend([], r) == r
  {
    if r.Ok? {
      assert [] + r.value == r.value;
    }
  }

  lemma PrependAssoc(a: seq<Record>, b: seq<Record>, r: Result<seq<Record>>)
    ensures Prepend(a, Prepend(b, r)) == Prepend(a + b, r)
  {
    if r.Ok? {
      assert a + (b + r.value) == a + b + r.value;
    }
  }

  /** One step of the parse at position `i`. */
  lemma ParseFromAt(rows: seq<Row>, i: nat, fromToday: bool, midnight: int)
    requires i < |rows|
    ensures ParseFrom(rows[i..], fromToday, midnight) ==
            if IsSeparator(rows[i]) then ParseFrom(rows[i + 1..], false, midnight)
            else if !IsStoryRow(rows[i]) then ParseFrom(rows[i + 1..], fromToday, midnight)
            else match RecordOf(rows[i], fromToday, midnight)
              case Err => Err
              case Ok(rec) => Prepend([rec], ParseFrom(rows[i + 1..], fromToday, midnight))
  {
    assert rows[i..][0] == rows[i];
    assert rows[i..][1..] == rows[i + 1..];
  }

  /** The loop of `parse_stories`, over the rows in page order. */
  method ParseStoriesLoop(rows: seq<Row>, midnight: int) returns (r: Result<seq<Record>>)
    ensures r == ParseStories(rows, midnight)
  {
    var stories: seq<Record> := [];
    var fromToday := true;
    var i := 0;
    assert rows[0..] == rows;
    PrependEmpty(ParseFrom(rows, true, midnight));
    while i < |rows|
      invariant 0 <= i <= |rows|
      invariant ParseStories(rows, midnight) == Prepend(stories, ParseFrom(rows[i..], fromToday, midnight))
    {
      var row := rows[i];
      ParseFromAt(rows, i, fromToday, midnight);
      if IsSeparator(row) {
        fromToday := false;
      } else if IsStoryRow(row) {
        var rec := RecordOf(row, fromToday, midnight);
        if rec.Err? {
          return Err;
        }
        PrependAssoc(stories, [rec.value], ParseFrom(rows[i + 1..], fromToday, midnight));
        stories := stories + [rec.value];
      }
      i := i + 1;
    }
    assert rows[i..] == [];
    assert stories + [] == stories;
    r := Ok(stories);
  }

  /**
   * Parsing is compositional: two stretches of rows parse into the concatenation of their
   * records, the second stretch starting from the flag the first leaves behind.
   */
  lemma {:induction false} ParseAppend(a: seq<Row>, b: seq<Row>, fromToday: bool, midnight: int)
    ensures ParseFrom(a + b, fromToday, midnight) ==
            Concat(ParseFrom(a, fromToday, midnight), ParseFrom(b, FlagAfter(a, fromToday), midnight))
    decreases |a|
  {
    if |a| == 0 {
      assert a + b == b;
      match ParseFrom(b, fromToday, midnight)
      case Err =>
      case Ok(xs) => assert [] + xs == xs;
    } else {
      assert (a + b)[1..] == a[1..] + b;
      assert a == [a[0]] + a[1..];
      var f := if IsSeparator(a[0]) then false else fromToday;
      ParseAppend(a[1..], b, f, midnight);
      assert FlagAfter(a[1..], f) == FlagAfter(a, fromToday);
      if !IsSeparator(a[0]) && IsStoryRow(a[0]) {
        match RecordOf(a[0], fromToday, midnight)
        case Err =>
        case Ok(rec) =>
          match ParseFrom(a[1..], fromToday, midnight)
          case Err =>
          case Ok(xs) =>
            PrependAssoc([rec], xs, ParseFrom(b, FlagAfter(a, fromToday), midnight));
      }
    }
  }

  /** Once the flag is down, nothing parsed is today's. */
  lemma {:induction false} NothingTodayAfterFlag(rows: seq<Row>, midnight: int)
    ensures ParseFrom(rows, false, midnight).Ok? ==>
            forall j :: 0 <= j < |ParseFrom(rows, false, midnight).value| ==> !ParseFrom(rows, false, midnight).value[j].fromToday
    decreases |rows|
  {
    if |rows| > 0 {
      NothingTodayAfterFlag(rows[1..], midnight);
    }
  }

  /** Before any separator, a record is today's exactly when its timestamp says so. */
  lemma {:induction false} TodayByTimestampBeforeSeparator(rows: seq<Row>, midnight: int)
    requires NoSeparator(rows)
    ensures ParseFrom(rows, true, midnight).Ok? ==>
            forall j :: 0 <= j < |ParseFrom(rows, true, midnight).value| ==>
              var rec := ParseFrom(rows, true, midnight).value[j];
              (rec.fromToday <==> StampedToday(rec, midnight))
    decreases |rows|
  {
    if |rows| > 0 {
      TodayByTimestampBeforeSeparator(rows[1..], midnight);
    }
  }

  /** A day separator splits the parse: the rows after it are parsed with the flag down. */
  lemma SeparatorSplitsParse(pre: seq<Row>, sep: Row, post: seq<Row>, fromToday: bool, midnight: int)
    requires IsSeparator(sep)
    ensures ParseFrom(pre + [sep] + post, fromToday, midnight) ==
            Concat(ParseFrom(pre, fromToday, midnight), ParseFrom(post, false, midnight))
  {
    ParseAppend(pre, [sep] + post, fromToday, midnight);
    assert pre + [sep] + post == pre + ([sep] + post);
    assert ([sep] + post)[1..] == post;
  }

  /**
   * A page with a first day separator: the records of the rows before it are today's exactly
   * when their timestamp is, and no record after it is today's.
   */
  lemma TodayIffBeforeFirstSeparator(pre: seq<Row>, sep: Row, post: seq<Row>, midnight: int)
    requires NoSeparator(pre) && IsSeparator(sep)
    ensures var r := ParseStories(pre + [sep] + post, midnight);
            var n := |Filter(pre, IsStoryRow)|;
            r.Ok? ==> forall j :: 0 <= j < |r.value| ==> (r.value[j].fromToday <==> j < n && StampedToday(r.value[j], midnight))
  {
    SeparatorSplitsParse(pre, sep, post, true, midnight);
    var r := ParseStories(pre + [sep] + post, midnight);
    var ra, rb := ParseFrom(pre, true, midnight), ParseFrom(post, false, midnight);
    if r.Ok? {
      assert ra.Ok? && rb.Ok?;
      var a, b := ra.value, rb.value;
      assert r.value == a + b;
      TodayByTimestampBeforeSeparator(pre, midnight);
      NothingTodayAfterFlag(post, midnight);
      ParseLength(pre, true, midnight);
      FlagsOfConcat(a, b, midnight);
    }
  }

  /** Records whose flags follow their timestamps, then records none of which is today's. */
  lemma FlagsOfConcat(a: seq<Record>, b: seq<Record>, midnight: int)
    requires forall j :: 0 <= j < |a| ==> (a[j].fromToday <==> StampedToday(a[j], midnight))
    requires forall j :: 0 <= j < |b| ==> !b[j].fromToday
    ensures forall j :: 0 <= j < |a + b| ==> ((a + b)[j].fromToday <==> j < |a| && StampedToday((a + b)[j], midnight))
  {
    forall j | 0 <= j < |a + b|
      ensures (a + b)[j].fromToday <==> j < |a| && StampedToday((a + b)[j], midnight)
    {
      if j < |a| {
        assert (a + b)[j] == a[j];
      } else {
        assert (a + b)[j] == b[j - |a|];
      }
    }
  }

  /** A parse yields one record per story row. */
  lemma {:induction false} ParseLength(rows: seq<Row>, fromToday: bool, midnight: int)
    ensures ParseFrom(rows, fromToday, midnight).Ok? ==>
            |ParseFrom(rows, fromToday, midnight).value| == |Filter(rows, IsStoryRow)|
    decreases |rows|
  {
    if |rows| > 0 {
      ParseFromAt(rows, 0, fromToday, midnight);
      assert rows[0..] == rows;
      ParseLength(rows[1..], false, midnight);
      ParseLength(rows[1..], fromToday, midnight);
    }
  }

  /** A row the parser can read: it has an `a.link` and, if it has an `a.hn`, a `data-date`. */
  predicate Readable(row: Row)
  {
    row.link.Some? && TimeText(row).Some?
  }

  /** Every story row among `rows` is readable. */
  predicate AllStoryRowsReadable(rows: seq<Row>)
    decreases |rows|
  {
    |rows| == 0 || ((IsStoryRow(rows[0]) ==> Readable(rows[0])) && AllStoryRowsReadable(rows[1..]))
  }

  /** A parse succeeds exactly when every story row has a link and a readable `data-date`. */
  lemma {:induction false} ParseSucceedsIff(rows: seq<Row>, fromToday: bool, midnight: int)
    ensures ParseFrom(rows, fromToday, midnight).Ok? <==> AllStoryRowsReadable(rows)
    decreases |rows|
  {
    if |rows| > 0 {
      ParseFromAt(rows, 0, fromToday, midnight);
      assert rows[0..] == rows;
      ParseSucceedsIff(rows[1..], false, midnight);
      ParseSucceedsIff(rows[1..], fromToday, midnight);
    }
  }

  /** Readability of the story rows, position by position. */
  lemma {:induction false} AllStoryRowsReadableIff(rows: seq<Row>)
    ensures AllStoryRowsReadable(rows) <==> forall i :: 0 <= i < |rows| && IsStoryRow(rows[i]) ==> Readable(rows[i])
    decreases |rows|
  {
    if |rows| > 0 {
      AllStoryRowsReadableIff(rows[1..]);
      assert forall i :: 1 <= i < |rows| ==> rows[i] == rows[1..][i - 1];
    }
  }

  /** The stories of some records, without their flags. */
  function StoriesOf(recs: seq<Record>): (r: seq<Story>)
    ensures |r| == |recs|
    decreases |recs|
  {
    if |recs| == 0 then [] else [recs[0].story] + StoriesOf(recs[1..])
  }

  /** Each record gives its own story, in place. */
  lemma {:induction false} StoriesOfAt(recs: seq<Record>, i: nat)
    requires i < |recs|
    ensures StoriesOf(recs)[i] == recs[i].story
    decreases i
  {
    if i > 0 {
      StoriesOfAt(recs[1..], i - 1);
    }
  }

  /** The stories of the readable story rows, in page order. */
  function StoryRowStories(rows: seq<Row>): seq<Story>
    decreases |rows|
  {
    if |rows| == 0 then []
    else
      var here := StoryOf(rows[0]);
      (if IsStoryRow(rows[0]) && here.Ok? then [here.value] else []) + StoryRowStories(rows[1..])
  }

  /** A successful parse lists the stories of the story rows in page order, whatever the flags. */
  lemma {:induction false} ParseKeepsOrder(rows: seq<Row>, fromToday: bool, midnight: int)
    ensures ParseFrom(rows, fromToday, midnight).Ok? ==>
            StoriesOf(ParseFrom(rows, fromToday, midnight).value) == StoryRowStories(rows)
    decreases |rows|
  {
    if |rows| > 0 {
      ParseFromAt(rows, 0, fromToday, midnight);
      assert rows[0..] == rows;
      ParseKeepsOrder(rows[1..], false, midnight);
      ParseKeepsOrder(rows[1..], fromToday, midnight);
      var r := ParseFrom(rows, fromToday, midnight);
      if IsStoryRow(rows[0]) && r.Ok? {
        var tail := ParseFrom(rows[1..], fromToday, midnight).value;
        var rec := r.value[0];
        assert r.value == [rec] + tail;
        assert r.value[1..] == tail;
      }
    }
  }

  /** A story row without an `a.link` makes the whole page fail to parse. */
  lemma MissingLinkFailsPage(pre: seq<Row>, row: Row, post: seq<Row>, midnight: int)
    requires IsStoryRow(row) && row.link.None?
    ensures ParseStories(pre + [row] + post, midnight) == Err
  {
    var rows := pre + [row] + post;
    ParseSucceedsIff(rows, true, midnight);
    AllStoryRowsReadableIff(rows);
    assert rows[|pre|] == row;
  }
}
