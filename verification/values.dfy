/** Story field values as Python sees them, and the two ways the program turns them into ints. */
module Values {
  import opened Wrappers
  import opened Text

  /**
   * A field of a story dictionary: an int, a bool (Python's bool is an int subclass), a str,
   * a missing key or `None`, or a value of some other type, known only by its truthiness.
   */
  datatype Value = IntVal(i: int) | BoolVal(b: bool) | StrVal(s: string) | NoneVal | OtherVal(truthy: bool)

  /** Python truthiness of a field value. */
  predicate Truthy(v: Value)
  {
    match v
    case IntVal(i) => i != 0
    case BoolVal(b) => b
    case StrVal(s) => |s| > 0
    case NoneVal => false
    case OtherVal(t) => t
  }

  /**
   * `get_int_value(story, key, default)` applied to `story.get(key)`: ints (and bools) pass
   * through, ASCII digit strings are read, anything else gives `default`.
   */
  function GetIntValue(v: Value, default: int): (r: int)
    ensures v.IntVal? ==> r == v.i
    ensures v.BoolVal? ==> r == (if v.b then 1 else 0)
    ensures v.StrVal? && IsDigits(v.s) ==> r == DigitsValue(v.s)
    ensures v.StrVal? && !IsDigits(v.s) ==> r == default
    ensures v.NoneVal? || v.OtherVal? ==> r == default
    ensures !v.IntVal? && default >= 0 ==> r >= 0
  {
    match v
    case IntVal(i) => i
    case BoolVal(b) => if b then 1 else 0
    case StrVal(s) => if IsDigits(s) then DigitsValue(s) else default
    case NoneVal => default
    case OtherVal(_) => default
  }

  /** A decimal spelling written by `str` is read back by `get_int_value`. */
  lemma GetIntValueReadsDecimal(n: nat, default: int)
    ensures GetIntValue(StrVal(NatToString(n)), default) == n
  {
  }

  /** Storing the normalised value back under the key and reading it again gives the same int. */
  lemma GetIntValueIdempotent(v: Value, default: int, default': int)
    ensures GetIntValue(IntVal(GetIntValue(v, default)), default') == GetIntValue(v, default)
  {
  }

  /**
   * `int(s)` for a str: surrounding whitespace is ignored and one optional sign may precede
   * the ASCII digits; anything else raises.
   */
  function ParseIntLiteral(s: string): (r: Result<int>)
    ensures IsDigits(s) ==> r == Ok(DigitsValue(s))
    ensures r.Ok? ==> |Strip(s)| > 0
    ensures r.Ok? <==> IsDigits(Strip(s)) || SignedDigits(Strip(s))
    ensures IsDigits(Strip(s)) ==> r == Ok(DigitsValue(Strip(s)))
    ensures SignedDigits(Strip(s)) ==>
              r == Ok((if Strip(s)[0] == '-' then -1 else 1) * DigitsValue(Strip(s)[1..]))
  {
    StripDigits(s);
    var t := Strip(s);
    if |t| > 1 && (t[0] == '-' || t[0] == '+') && IsDigits(t[1..]) then
      var m: int := DigitsValue(t[1..]);
      Ok(if t[0] == '-' then -m else m)
    else if IsDigits(t) then Ok(DigitsValue(t))
    else Err
  }

  /** One sign followed by ASCII digits, as in "-5" or "+12". */
  predicate SignedDigits(t: string)
  {
    |t| > 1 && (t[0] == '-' || t[0] == '+') && IsDigits(t[1..])
  }

  /** `int()` reads back whatever `str` writes, whitespace padding or not. */
  lemma ParseIntLiteralReadsStr(n: int, pre: string, post: string)
    requires AllSpaces(pre) && AllSpaces(post)
    ensures ParseIntLiteral(pre + IntToString(n) + post) == Ok(n)
  {
    var t := IntToString(n);
    assert |t| > 0 && !IsSpace(t[0]) && !IsSpace(t[|t| - 1]);
    StripPadded(pre, t, post);
    if n < 0 {
      assert t[1..] == NatToString(-n);
    } else {
      assert IsDigits(t);
    }
  }

  /**
   * `int(v or 0)`: a falsy value becomes 0, ints and bools pass, strs go through `int()`, and
   * a value of another type raises.
   */
  function IntOrZero(v: Value): (r: Result<int>)
    ensures !Truthy(v) ==> r == Ok(0)
    ensures v.OtherVal? && v.truthy ==> r == Err
    ensures v.StrVal? && IsDigits(v.s) ==> r == Ok(DigitsValue(v.s))
    ensures v.StrVal? && v.s != "" ==> r == ParseIntLiteral(v.s)
    ensures v.IntVal? ==> r == Ok(v.i)
    ensures v.BoolVal? ==> r == Ok(if v.b then 1 else 0)
  {
    if !Truthy(v) then Ok(0)
    else
      match v
      case IntVal(i) => Ok(i)
      case BoolVal(_) => Ok(1)
      case StrVal(s) => ParseIntLiteral(s)
      case NoneVal => Ok(0)
      case OtherVal(_) => Err
  }

  /** The two coercions agree wherever a field holds an int, a bool, nothing, or a digit string. */
  lemma CoercionsAgree(v: Value)
    requires !v.OtherVal?
    requires v.StrVal? ==> v.s == "" || IsDigits(v.s)
    ensures IntOrZero(v) == Ok(GetIntValue(v, 0))
  {
  }

  /** A signed string is where they part: `int()` reads it, `get_int_value` falls back to the default. */
  lemma CoercionsDisagreeOnSign()
    ensures IntOrZero(StrVal("-5")) == Ok(-5)
    ensures GetIntValue(StrVal("-5"), 0) == 0
  {
    var s := "-5";
    assert LeadingSpaces(s) == 0;
    assert TrailingSpaces(s) == 0;
    assert Strip(s) == s;
    assert s[1..] == "5";
    assert DigitsValue("5") == 5 by {
      assert "5"[..0] == "";
    }
  }
}
