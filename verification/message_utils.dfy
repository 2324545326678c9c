/** `MessageUtils` of bot/utils.py: markdown escaping and the alarm-list text. */
module MessageUtils {
  import opened Strings
  import opened Numbers

  /** The characters `escape_markdown` escapes, in the order it processes them. */
  const EscapeChars: seq<char> :=
    ['_', '*', '[', ']', '(', ')', '~', '`', '>', '#', '+', '-', '=', '|', '{', '}', '.', '!']

  /** The same characters as a set. */
  const SpecialSet: set<char> := set c | c in EscapeChars

  predicate Special(c: char)
  {
    c in EscapeChars
  }

  /**
    `text.replace(c, '\\' + c)` for a single character `c`: one character
    more per occurrence of `c`, and no change to a text without `c`.
   */
  function ReplaceChar(text: string, c: char): (r: string)
    ensures |r| == |text| + Count(text, c)
    ensures c !in text ==> r == text
  {
    if |text| == 0 then ""
    else
      assert c !in text ==> c !in text[1..] && text == [text[0]] + text[1..];
      (if text[0] == c then ['\\', c] else [text[0]]) + ReplaceChar(text[1..], c)
  }

  /** The loop of `escape_markdown`: one `replace` per listed character, in order. */
  function ReplaceEach(text: string, chars: seq<char>): string
    decreases |chars|
  {
    if |chars| == 0 then text
    else ReplaceEach(ReplaceChar(text, chars[0]), chars[1..])
  }

  /**
    `MessageUtils.escape_markdown`. The eighteen `replace` calls amount to
    one pass that prefixes each listed character with a backslash, so no
    backslash added by one call is escaped by a later one. The result is
    one character longer per listed character, reads back as the input,
    and equals the input when it holds no listed character.
   */
  function EscapeMarkdown(text: string): (r: string)
    ensures r == EscapeWith(SpecialSet, text)
    ensures |r| == |text| + SpecialCount(text)
    ensures Unescape(r) == text
    ensures SpecialCount(text) == 0 ==> r == text
  {
    EscapeCharsFresh();
    ReplaceEachIsOnePass(text, EscapeChars);
    EscapeWithLength(text);
    UnescapeEscapeWith(text);
    EscapeWithPlain(text);
    ReplaceEach(text, EscapeChars)
  }

  /** Escaping one character at a time, with the characters in `escaped` prefixed by a backslash. */
  function EscapeWith(escaped: set<char>, text: string): string
  {
    if |text| == 0 then ""
    else (if text[0] in escaped then ['\\', text[0]] else [text[0]]) + EscapeWith(escaped, text[1..])
  }

  /** Number of characters of `text` that are escaped. */
  function SpecialCount(text: string): nat
  {
    if |text| == 0 then 0
    else (if Special(text[0]) then 1 else 0) + SpecialCount(text[1..])
  }

  /**
    Reads an escaped text back: a backslash followed by a listed character
    stands for that character; everything else stands for itself.
   */
  function Unescape(text: string): string
  {
    if |text| >= 2 && text[0] == '\\' && Special(text[1]) then [text[1]] + Unescape(text[2..])
    else if |text| == 0 then ""
    else [text[0]] + Unescape(text[1..])
  }

  lemma {:induction false} ReplaceCharConcat(a: string, b: string, c: char)
    ensures ReplaceChar(a + b, c) == ReplaceChar(a, c) + ReplaceChar(b, c)
    decreases |a|
  {
    if |a| == 0 {
      assert a + b == b;
    } else {
      assert (a + b)[1..] == a[1..] + b;
      ReplaceCharConcat(a[1..], b, c);
    }
  }

  lemma ReplaceCharSingle(x: char, c: char)
    ensures ReplaceChar([x], c) == if x == c then ['\\', c] else [x]
  {
    assert [x][1..] == "";
  }

  /** One more `replace` escapes one more character, provided it was not escaped yet. */
  lemma {:induction false} ReplaceExtendsEscape(escaped: set<char>, text: string, c: char)
    requires c !in escaped && c != '\\'
    ensures ReplaceChar(EscapeWith(escaped, text), c) == EscapeWith(escaped + {c}, text)
    decreases |text|
  {
    if |text| > 0 {
      var x := text[0];
      var head := if x in escaped then ['\\', x] else [x];
      var tail := EscapeWith(escaped, text[1..]);
      assert EscapeWith(escaped, text) == head + tail;
      ReplaceCharConcat(head, tail, c);
      ReplaceExtendsEscape(escaped, text[1..], c);
      var head' := if x in escaped + {c} then ['\\', x] else [x];
      if x in escaped {
        ReplaceCharConcat(['\\'], [x], c);
        ReplaceCharSingle('\\', c);
        ReplaceCharSingle(x, c);
        assert ['\\'] + [x] == head;
      } else {
        ReplaceCharSingle(x, c);
      }
      assert ReplaceChar(head, c) == head';
      assert EscapeWith(escaped + {c}, text) == head' + EscapeWith(escaped + {c}, text[1..]);
    }
  }

  /** Distinct characters, none a backslash, none escaped yet. */
  predicate FreshChars(chars: seq<char>, escaped: set<char>)
  {
    && (forall i :: 0 <= i < |chars| ==> chars[i] !in escaped && chars[i] != '\\')
    && (forall i, j :: 0 <= i < j < |chars| ==> chars[i] != chars[j])
  }

  lemma {:induction false} ReplaceEachEscapes(escaped: set<char>, text: string, chars: seq<char>)
    requires FreshChars(chars, escaped)
    ensures ReplaceEach(EscapeWith(escaped, text), chars) ==
      EscapeWith(escaped + (set i | 0 <= i < |chars| :: chars[i]), text)
    decreases |chars|
  {
    var all := set i | 0 <= i < |chars| :: chars[i];
    if |chars| == 0 {
      assert escaped + all == escaped;
    } else {
      ReplaceExtendsEscape(escaped, text, chars[0]);
      var rest := chars[1..];
      assert FreshChars(rest, escaped + {chars[0]}) by {
        forall i | 0 <= i < |rest|
          ensures rest[i] != chars[0]
        {
          assert rest[i] == chars[i + 1];
        }
      }
      ReplaceEachEscapes(escaped + {chars[0]}, text, rest);
      var restSet := set i | 0 <= i < |rest| :: rest[i];
      assert all == {chars[0]} + restSet by {
        forall x | x in all ensures x in {chars[0]} + restSet {
          var i :| 0 <= i < |chars| && chars[i] == x;
          if i > 0 {
            assert rest[i - 1] == x;
          }
        }
        forall x | x in restSet ensures x in all {
          var i :| 0 <= i < |rest| && rest[i] == x;
          assert chars[i + 1] == x;
        }
      }
      assert escaped + {chars[0]} + restSet == escaped + all;
    }
  }

  lemma {:induction false} EscapeNothing(text: string)
    ensures EscapeWith({}, text) == text
    decreases |text|
  {
    if |text| > 0 {
      EscapeNothing(text[1..]);
      assert text == [text[0]] + text[1..];
    }
  }

  /** The listed characters are distinct and none is a backslash. */
  lemma EscapeCharsFresh()
    ensures FreshChars(EscapeChars, {})
  {
  }

  lemma IndexSetIsElementSet(cs: seq<char>)
    ensures (set i | 0 <= i < |cs| :: cs[i]) == (set c | c in cs)
  {
    forall c | c in cs
      ensures c in (set i | 0 <= i < |cs| :: cs[i])
    {
      var i :| 0 <= i < |cs| && cs[i] == c;
    }
  }

  /** Replacing each of some fresh characters in turn escapes all of them in one pass. */
  lemma ReplaceEachIsOnePass(text: string, cs: seq<char>)
    requires FreshChars(cs, {})
    ensures ReplaceEach(text, cs) == EscapeWith((set c | c in cs), text)
  {
    EscapeNothing(text);
    ReplaceEachEscapes({}, text, cs);
    IndexSetIsElementSet(cs);
    var indexed := set i | 0 <= i < |cs| :: cs[i];
    assert {} + indexed == indexed;
  }

  lemma {:induction false} EscapeWithLength(text: string)
    ensures |EscapeWith(SpecialSet, text)| == |text| + SpecialCount(text)
    decreases |text|
  {
    if |text| > 0 {
      EscapeWithLength(text[1..]);
    }
  }

  lemma {:induction false} UnescapeEscapeWith(text: string)
    ensures Unescape(EscapeWith(SpecialSet, text)) == text
    decreases |text|
  {
    var specials := SpecialSet;
    if |text| > 0 {
      var x := text[0];
      var rest := EscapeWith(specials, text[1..]);
      UnescapeEscapeWith(text[1..]);
      if Special(x) {
        assert ['\\', x] + rest == [ '\\', x] + rest;
        assert (['\\', x] + rest)[2..] == rest;
      } else {
        var e := [x] + rest;
        assert e[1..] == rest;
        if x == '\\' && |e| >= 2 {
          assert e[1] == text[1..][0] || e[1] == '\\';
        }
      }
      assert text == [x] + text[1..];
    }
  }

  lemma {:induction false} EscapeWithPlain(text: string)
    ensures SpecialCount(text) == 0 ==> EscapeWith(SpecialSet, text) == text
    decreases |text|
  {
    if |text| > 0 && SpecialCount(text) == 0 {
      EscapeWithPlain(text[1..]);
      assert text == [text[0]] + text[1..];
    }
  }

  /** Text returned for an empty alarm list. */
  const NoAlarmsText: string := "No tienes alarmas configuradas."

  /** First line of a non-empty alarm list. */
  const ListTitle: string := "⏰ *Tus alarmas activas:*"

  /** Line `n` of the list: `f"{n}. `{time}` (diaria)"`. */
  function AlarmLine(n: nat, time: string): string
  {
    Decimal(n) + ". `" + time + "` (diaria)"
  }

  /** The last line: `f"📊 Total: {count} alarma(s)"`. */
  function TotalLine(count: nat): string
  {
    "📊 Total: " + Decimal(count) + " alarma(s)"
  }

  /** The text the numbering loop appends, starting at number `first`. */
  function NumberedLines(alarms: seq<string>, first: nat): string
    decreases |alarms|
  {
    if |alarms| == 0 then ""
    else AlarmLine(first, alarms[0]) + "\n" + NumberedLines(alarms[1..], first + 1)
  }

  /** `MessageUtils.format_alarm_list`; only the empty list gets the fixed empty text. */
  function FormatAlarmList(alarms: seq<string>): (r: string)
    ensures r == NoAlarmsText <==> |alarms| == 0
  {
    if |alarms| == 0 then NoAlarmsText
    else ListTitle + "\n\n" + NumberedLines(alarms, 1) + "\n" + TotalLine(|alarms|)
  }

  /** The numbered lines, one per alarm, as a list. */
  function AlarmLines(alarms: seq<string>, first: nat): (lines: seq<string>)
    ensures |lines| == |alarms|
    ensures forall i :: 0 <= i < |alarms| ==> lines[i] == AlarmLine(first + i, alarms[i])
    decreases |alarms|
  {
    if |alarms| == 0 then []
    else [AlarmLine(first, alarms[0])] + AlarmLines(alarms[1..], first + 1)
  }

  lemma JoinCons(head: string, rest: seq<string>, sep: char)
    requires |rest| >= 1
    ensures Join([head] + rest, sep) == head + [sep] + Join(rest, sep)
  {
    assert ([head] + rest)[1..] == rest;
  }

  lemma {:induction false} NumberedLinesJoin(alarms: seq<string>, first: nat, tail: seq<string>)
    requires |tail| >= 1
    ensures NumberedLines(alarms, first) + Join(tail, '\n') ==
      Join(AlarmLines(alarms, first) + tail, '\n')
    decreases |alarms|
  {
    if |alarms| == 0 {
      assert AlarmLines(alarms, first) + tail == tail;
    } else {
      NumberedLinesJoin(alarms[1..], first + 1, tail);
      var rest := AlarmLines(alarms[1..], first + 1) + tail;
      JoinCons(AlarmLine(first, alarms[0]), rest, '\n');
      assert AlarmLines(alarms, first) + tail == [AlarmLine(first, alarms[0])] + rest;
    }
  }

  lemma DecimalHasNoNewline(n: nat)
    ensures '\n' !in Decimal(n)
  {
  }

  /** The lines of a non-empty list text. */
  function ListLines(alarms: seq<string>): seq<string>
  {
    [ListTitle] + ([""] + (AlarmLines(alarms, 1) + ["", TotalLine(|alarms|)]))
  }

  lemma FormatAlarmListIsJoin(alarms: seq<string>)
    requires |alarms| > 0
    ensures FormatAlarmList(alarms) == Join(ListLines(alarms), '\n')
  {
    ListLinesJoin(alarms);
    TwoBreaks(ListTitle, NumberedLines(alarms, 1), TotalLine(|alarms|));
  }

  lemma ListLinesJoin(alarms: seq<string>)
    ensures Join(ListLines(alarms), '\n') ==
      ListTitle + "\n" + ("\n" + (NumberedLines(alarms, 1) + "\n" + TotalLine(|alarms|)))
  {
    NumberedLinesJoin(alarms, 1, ["", TotalLine(|alarms|)]);
    TitledJoin(ListTitle, AlarmLines(alarms, 1), NumberedLines(alarms, 1), TotalLine(|alarms|));
  }

  /** Joining a title, a blank line, the body lines, a blank line and a total line. */
  lemma TitledJoin(title: string, body: seq<string>, numbered: string, total: string)
    requires numbered + Join(["", total], '\n') == Join(body + ["", total], '\n')
    ensures Join([title] + ([""] + (body + ["", total])), '\n') ==
      title + "\n" + ("\n" + (numbered + "\n" + total))
  {
    var tail := ["", total];
    JoinCons("", [total], '\n');
    var j1 := Join(tail, '\n');
    assert j1 == "\n" + total;
    var j2 := Join(body + tail, '\n');
    assert j2 == numbered + "\n" + total;
    JoinCons("", body + tail, '\n');
    var j3 := Join([""] + (body + tail), '\n');
    assert j3 == "\n" + j2;
    JoinCons(title, [""] + (body + tail), '\n');
  }

  lemma TwoBreaks(title: string, numbered: string, total: string)
    ensures title + "\n\n" + numbered + "\n" + total == title + "\n" + ("\n" + (numbered + "\n" + total))
  {
    assert "\n\n" == "\n" + "\n";
  }

  lemma ListLinesHaveNoBreak(alarms: seq<string>)
    requires forall i :: 0 <= i < |alarms| ==> '\n' !in alarms[i]
    ensures SeparatorFree(ListLines(alarms), '\n')
  {
    var parts := ListLines(alarms);
    forall i | 0 <= i < |parts|
      ensures '\n' !in parts[i]
    {
      if 2 <= i < |alarms| + 2 {
        DecimalHasNoNewline(i - 1);
        assert parts[i] == AlarmLine(i - 1, alarms[i - 2]);
      } else if i == |alarms| + 3 {
        DecimalHasNoNewline(|alarms|);
      }
    }
  }

  /**
    Read line by line, a non-empty list is the title, a blank line, line
    `i` numbered `i` for each alarm in the given order, a blank line and
    the total, provided no alarm text itself holds a line break.
   */
  lemma FormatAlarmListLines(alarms: seq<string>)
    requires |alarms| > 0
    requires forall i :: 0 <= i < |alarms| ==> '\n' !in alarms[i]
    ensures var lines := Split(FormatAlarmList(alarms), '\n');
      && |lines| == |alarms| + 4
      && lines[0] == ListTitle && lines[1] == ""
      && (forall i :: 0 <= i < |alarms| ==> lines[i + 2] == AlarmLine(i + 1, alarms[i]))
      && lines[|alarms| + 2] == ""
      && lines[|alarms| + 3] == TotalLine(|alarms|)
  {
    FormatAlarmListIsJoin(alarms);
    ListLinesHaveNoBreak(alarms);
    SplitJoin(ListLines(alarms), '\n');
    var lines := ListLines(alarms);
    forall i | 0 <= i < |alarms|
      ensures lines[i + 2] == AlarmLine(i + 1, alarms[i])
    {
      assert lines[i + 2] == AlarmLines(alarms, 1)[i];
    }
  }
}
