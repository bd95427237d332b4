/**
 * What opening a selected story does in both apps: the story's own link, or its comments
 * page on Hacker News.
 */
module Selection {
  import opened Wrappers
  import opened Text
  import opened Values
  import opened Stories
  import opened StoryCache

  /** The title column opens the story, the other column (or the `l` key) its comments. */
  datatype Target = StoryLink | Comments

  /**
   * `str(v)` where the text is known: ints in decimal, strs as they are, the two bools and
   * `None` by name. The text of a value of another type is not modelled.
   */
  function StrOf(v: Value): (r: Option<string>)
    ensures v.StrVal? ==> r == Some(v.s)
    ensures v.IntVal? && v.i >= 0 ==> r == Some(NatToString(v.i))
    ensures r.None? <==> v.OtherVal?
  {
    match v
    case IntVal(i) => Some(IntToString(i))
    case BoolVal(b) => Some(if b then "True" else "False")
    case StrVal(s) => Some(s)
    case NoneVal => Some("None")
    case OtherVal(_) => None
  }

  /**
   * The URL opened for a story: its link when that is a str with something other than
   * whitespace in it, or the comments page of a truthy id. `None` when nothing is opened
   * (including the `strip` of a link that is not a str, which raises and is swallowed).
   */
  function OpenTarget(story: Story, target: Target): (r: Option<string>)
    ensures target == StoryLink ==> (r.Some? <==> story.link.StrVal? && |Strip(story.link.s)| > 0)
    ensures target == StoryLink && r.Some? ==> r.value == story.link.s
    ensures target == Comments && !Truthy(story.id) ==> r.None?
    ensures target == Comments && Truthy(story.id) ==>
              r == (if StrOf(story.id).Some? then Some(CommentUrl(StrOf(story.id).value)) else None)
  {
    match target
    case StoryLink =>
      if Truthy(story.link) && story.link.StrVal? && |Strip(story.link.s)| > 0 then Some(story.link.s) else None
    case Comments =>
      if !Truthy(story.id) then None
      else match StrOf(story.id)
        case None => None
        case Some(s) => Some(CommentUrl(s))
  }

  /** A positive numeric id opens the comments page named by its decimal digits. */
  lemma CommentsOfNumericId(story: Story)
    requires story.id.IntVal? && story.id.i > 0
    ensures OpenTarget(story, Comments) == Some(CommentUrl(NatToString(story.id.i)))
  {
  }

  /** Two stories with different numeric ids open different comments pages. */
  lemma CommentsPagesDistinct(a: Story, b: Story)
    requires a.id.IntVal? && a.id.i > 0 && b.id.IntVal? && b.id.i > 0
    requires a.id != b.id
    ensures OpenTarget(a, Comments) != OpenTarget(b, Comments)
  {
    CommentUrlInjective(NatToString(a.id.i), NatToString(b.id.i));
    NatToStringInjective(a.id.i, b.id.i);
  }
}
