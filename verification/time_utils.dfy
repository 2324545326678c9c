/** `TimeUtils` of bot/utils.py: the clock-text normaliser and the boolean validator. */
module TimeUtils {
  import opened Wrappers
  import opened Strings
  import opened Numbers
  import opened Clock
  import Config

  /**
    `format_time_for_display`: re-renders an `H:M` text as zero-padded
    `HH:MM` when both pieces are integers, and returns anything else
    unchanged. No range check is made.
   */
  function FormatTimeForDisplay(s: string): (r: string)
    ensures ClockFields(s).Some? ==>
      r == ClockText(ClockFields(s).value.0, ClockFields(s).value.1)
    ensures ClockFields(s).None? ==> r == s
  {
    SplitFields(s);
    var parts := Split(s, ':');
    if |parts| != 2 then s
    else
      match (ParseInt(parts[0]), ParseInt(parts[1]))
      case (Some(hour), Some(minute)) => Pad2(hour) + ":" + Pad2(minute)
      case _ => s
  }

  /** Normalising twice is normalising once. */
  lemma FormatTimeIdempotent(s: string)
    ensures FormatTimeForDisplay(FormatTimeForDisplay(s)) == FormatTimeForDisplay(s)
  {
    if ClockFields(s).Some? {
      ClockTextRoundTrip(ClockFields(s).value.0, ClockFields(s).value.1);
    }
  }

  /**
    Normalising keeps the hour and minute a text denotes, and a valid time
    becomes a five-character `HH:MM`.
   */
  lemma FormatTimePreservesReading(s: string)
    requires ClockFields(s).Some?
    ensures ClockFields(FormatTimeForDisplay(s)) == ClockFields(s)
    ensures InClockRange(ClockFields(s).value.0, ClockFields(s).value.1) ==>
      |FormatTimeForDisplay(s)| == 5
  {
    var (hour, minute) := ClockFields(s).value;
    ClockTextRoundTrip(hour, minute);
    if InClockRange(hour, minute) {
      Pad2Length(hour);
      Pad2Length(minute);
    }
  }

  /** "7:5" is displayed as "07:05". */
  lemma FormatTimeExample()
    ensures FormatTimeForDisplay("7:5") == "07:05"
  {
    assert ClockFields("7:5") == Some((7, 5)) by {
      ParseOneDigit('7');
      ParseOneDigit('5');
      ReadPair("7", "5", 7, 5);
      assert "7" + ":" + "5" == "7:5";
    }
    assert ClockText(7, 5) == "07:05" by {
      assert Pad2(7) == "07" && Pad2(5) == "05";
    }
  }

  /**
    `is_valid_time_string`: exactly two integer pieces around one ':',
    the hour in 0..23 and the minute in 0..59.
   */
  function IsValidTimeString(s: string): (r: bool)
    ensures r <==> ClockFields(s).Some? && InClockRange(ClockFields(s).value.0, ClockFields(s).value.1)
  {
    SplitFields(s);
    var parts := Split(s, ':');
    if |parts| != 2 then false
    else
      match (ParseInt(parts[0]), ParseInt(parts[1]))
      case (Some(hour), Some(minute)) => 0 <= hour <= 23 && 0 <= minute <= 59
      case _ => false
  }

  /** The boolean validator accepts exactly what `Config.validate_time_format` accepts. */
  lemma ValidatorsAgree(s: string)
    ensures IsValidTimeString(s) <==> Config.ValidateTimeFormat(s) == Config.TimeOk
  {
  }

  /** A valid text stays valid, and means the same time, after normalising. */
  lemma FormatTimeKeepsValid(s: string)
    requires IsValidTimeString(s)
    ensures IsValidTimeString(FormatTimeForDisplay(s))
    ensures ClockFields(FormatTimeForDisplay(s)) == ClockFields(s)
  {
    FormatTimePreservesReading(s);
  }
}
