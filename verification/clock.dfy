/**
  Reading an `H:M` clock text the way every validator of the bot does:
  exactly one ':' and an integer on each side.
 */
module Clock {
  import opened Wrappers
  import opened Strings
  import opened Numbers

  /** The text before and after the only ':' of `s`, when it has exactly one. */
  function Fields(s: string): (r: Option<(string, string)>)
    ensures r.None? <==> Count(s, ':') != 1
    ensures r.Some? ==>
      s == r.value.0 + ":" + r.value.1 && ':' !in r.value.0 && ':' !in r.value.1
  {
    if Count(s, ':') == 1 then
      var i := IndexOf(s, ':');
      SplitTwo(s, ':');
      assert Split(s, ':')[1] == s[i + 1..];
      assert s == s[..i] + ":" + s[i + 1..];
      Some((s[..i], s[i + 1..]))
    else None
  }

  /** The integers on either side of the only ':', when both parse. */
  function ClockFields(s: string): Option<(int, int)>
  {
    match Fields(s)
    case None => None
    case Some((a, b)) =>
      if ParseInt(a).Some? && ParseInt(b).Some? then Some((ParseInt(a).value, ParseInt(b).value))
      else None
  }

  /** An hour of the 24-hour clock and a minute of the hour. */
  predicate InClockRange(hour: int, minute: int)
  {
    0 <= hour <= 23 && 0 <= minute <= 59
  }

  /** `f"{hour:02d}:{minute:02d}"`. */
  function ClockText(hour: int, minute: int): string
  {
    Pad2(hour) + ":" + Pad2(minute)
  }

  /** `s.split(':')` has two pieces exactly when `Fields` finds them, and they agree. */
  lemma SplitFields(s: string)
    ensures |Split(s, ':')| == 2 <==> Fields(s).Some?
    ensures Fields(s).Some? ==> Split(s, ':') == [Fields(s).value.0, Fields(s).value.1]
  {
    SplitTwo(s, ':');
  }

  /** A text glued from two colon-free pieces is read back as those pieces. */
  lemma {:induction false} FieldsOfPair(a: string, b: string)
    requires ':' !in a && ':' !in b
    ensures Fields(a + ":" + b) == Some((a, b))
  {
    var s := a + ":" + b;
    CountConcat(a + ":", b, ':');
    CountConcat(a, ":", ':');
    assert Count(":", ':') == 1;
    assert s[|a|] == ':' && s[..|a|] == a;
    var i := IndexOf(s, ':');
    assert i == |a|;
    assert s[i + 1..] == b;
  }

  /** Two colon-free pieces that both parse are read as those two integers. */
  lemma ReadPair(a: string, b: string, hour: int, minute: int)
    requires ':' !in a && ':' !in b
    requires ParseInt(a) == Some(hour) && ParseInt(b) == Some(minute)
    ensures ClockFields(a + ":" + b) == Some((hour, minute))
  {
    FieldsOfPair(a, b);
  }

  /** Rendering a clock reading and reading it back gives the same hour and minute. */
  lemma ClockTextRoundTrip(hour: int, minute: int)
    ensures ClockFields(ClockText(hour, minute)) == Some((hour, minute))
  {
    ParsePad2(hour);
    ParsePad2(minute);
    FieldsOfPair(Pad2(hour), Pad2(minute));
  }
}
